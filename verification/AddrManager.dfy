// The address manager (addrmanager.go).  Bucket hashes, random draws and what the
// clock says about an address are parameters.

module AddrManagers {
  import opened AddressBook
  import opened PeersFile

  class KnownAddress {
    const key: Key
    const src: Key
    var timestamp: int
    var services: set<nat>
    var attempts: nat
    var lastAttempt: int
    var lastSuccess: int
    var tried: bool
    var refs: int

    constructor (key: Key, src: Key, timestamp: int, services: set<nat>)
      ensures this.key == key && this.src == src && this.timestamp == timestamp && this.services == services
      ensures refs == 0 && !tried
    {
      this.key, this.src, this.timestamp, this.services := key, src, timestamp, services;
      attempts, lastAttempt, lastSuccess, tried, refs := 0, 0, 0, false, 0;
    }
  }

  ghost function KeyList(list: seq<KnownAddress>): (r: seq<Key>)
    ensures |r| == |list|
    ensures forall i :: 0 <= i < |list| ==> r[i] == list[i].key
  {
    seq(|list|, i requires 0 <= i < |list| => list[i].key)
  }

  ghost function BucketKeys(buckets: seq<map<Key, KnownAddress>>): (r: seq<set<Key>>)
    ensures |r| == |buckets|
    ensures forall i :: 0 <= i < |buckets| ==> r[i] == buckets[i].Keys
  {
    seq(|buckets|, i requires 0 <= i < |buckets| => buckets[i].Keys)
  }

  ghost function ListKeys(lists: seq<seq<KnownAddress>>): (r: seq<seq<Key>>)
    ensures |r| == |lists|
    ensures forall i :: 0 <= i < |lists| ==> r[i] == KeyList(lists[i])
  {
    seq(|lists|, i requires 0 <= i < |lists| => KeyList(lists[i]))
  }

  class AddrManager {
    var addrIndex: map<Key, KnownAddress>
    const addrNew: array<map<Key, KnownAddress>>
    const addrTried: array<seq<KnownAddress>>
    var nNew: int
    var nTried: int

    /** The known addresses, by key; the buckets refer to the same objects. */
    ghost predicate Linked()
      reads this, addrNew, addrTried
    {
      && addrNew.Length == NEW_BUCKET_COUNT && addrTried.Length == TRIED_BUCKET_COUNT
      && (forall k :: k in addrIndex ==> addrIndex[k].key == k)
      && (forall i, k :: 0 <= i < addrNew.Length && k in addrNew[i] ==> k in addrIndex && addrNew[i][k] == addrIndex[k])
      && (forall i, ka :: 0 <= i < addrTried.Length && ka in addrTried[i] ==> ka.key in addrIndex && addrIndex[ka.key] == ka)
    }

    ghost function Entries(): map<Key, Entry>
      reads this, addrIndex.Values
    {
      map k | k in addrIndex :: Entry(addrIndex[k].refs, addrIndex[k].tried)
    }

    ghost function TheBook(): Book
      reads this, addrNew, addrTried, addrIndex.Values
    {
      Book(Entries(), BucketKeys(addrNew[..]), ListKeys(addrTried[..]), nNew, nTried)
    }

    ghost predicate Valid()
      reads this, addrNew, addrTried, addrIndex.Values
    {
      Linked() && Inv(TheBook(), {})
    }

    constructor ()
      ensures Valid() && addrIndex == map[] && nNew == 0 && nTried == 0
      ensures fresh(addrNew) && fresh(addrTried)
      ensures forall i :: 0 <= i < addrNew.Length ==> addrNew[i] == map[]
      ensures forall i :: 0 <= i < addrTried.Length ==> addrTried[i] == []
    {
      addrIndex, nNew, nTried := map[], 0, 0;
      addrNew := new map<Key, KnownAddress>[NEW_BUCKET_COUNT](_ => map[]);
      addrTried := new seq<KnownAddress>[TRIED_BUCKET_COUNT](_ => []);
      new;
      assert Keys(Entries(), true) == {} && Keys(Entries(), false) == {};
    }

    // The single steps on the heap, each with what it does to the book.

    method PutInBucket(bucket: nat, ka: KnownAddress)
      requires Linked() && bucket < addrNew.Length && ka.key in addrIndex && addrIndex[ka.key] == ka
      modifies addrNew
      ensures Linked() && bucket < |old(TheBook()).new_|
      ensures addrNew[bucket].Keys == old(addrNew[bucket].Keys) + {ka.key}
      ensures TheBook() == var b := old(TheBook()); b.(new_ := b.new_[bucket := b.new_[bucket] + {ka.key}])
    {
      LinkedLengths();
      addrNew[bucket] := addrNew[bucket][ka.key := ka];
      assert addrNew[bucket].Keys == old(addrNew[bucket].Keys) + {ka.key};
    }

    method TakeFromBucket(bucket: nat, k: Key)
      requires Linked() && bucket < addrNew.Length
      modifies addrNew
      ensures Linked() && bucket < |old(TheBook()).new_|
      ensures addrNew[bucket] == old(addrNew[bucket]) - {k}
      ensures forall i :: 0 <= i < addrNew.Length && i != bucket ==> addrNew[i] == old(addrNew[i])
      ensures TheBook() == var b := old(TheBook()); b.(new_ := b.new_[bucket := b.new_[bucket] - {k}])
    {
      LinkedLengths();
      addrNew[bucket] := addrNew[bucket] - {k};
    }

    method SetTried(bucket: nat, list: seq<KnownAddress>)
      requires Linked() && bucket < addrTried.Length
      requires forall ka :: ka in list ==> ka.key in addrIndex && addrIndex[ka.key] == ka
      modifies addrTried
      ensures Linked() && bucket < |old(TheBook()).tried|
      ensures TheBook() == var b := old(TheBook()); b.(tried := b.tried[bucket := KeyList(list)])
    {
      LinkedLengths();
      addrTried[bucket] := list;
    }

    /** Changes the reference count and the tried flag of one address. */
    method SetEntry(ka: KnownAddress, refs: int, tried: bool)
      requires Linked() && ka.key in addrIndex && addrIndex[ka.key] == ka
      modifies ka`refs, ka`tried
      ensures ka.refs == refs && ka.tried == tried && Linked()
      ensures TheBook() == var b := old(TheBook()); b.(entries := b.entries[ka.key := Entry(refs, tried)])
    {
      hide BucketKeys, ListKeys;
      ka.refs, ka.tried := refs, tried;
      assert Entries() == old(Entries())[ka.key := Entry(refs, tried)];
    }

    method AddRefs(ka: KnownAddress, delta: int)
      requires Linked() && ka.key in addrIndex && addrIndex[ka.key] == ka
      modifies ka`refs
      ensures ka.refs == old(ka.refs) + delta && Linked()
      ensures TheBook() == var b := old(TheBook()); b.(entries := b.entries[ka.key := Entry(ka.refs, ka.tried)])
    {
      hide BucketKeys, ListKeys;
      ka.refs := ka.refs + delta;
      assert Entries() == old(Entries())[ka.key := Entry(ka.refs, ka.tried)];
    }

    method AddToCounters(new_: int, tried: int)
      requires Linked()
      modifies this`nNew, this`nTried
      ensures Linked()
      ensures TheBook() == var b := old(TheBook()); b.(nNew := b.nNew + new_, nTried := b.nTried + tried)
      ensures nNew == old(nNew) + new_ && nTried == old(nTried) + tried
    {
      hide BucketKeys, ListKeys;
      nNew, nTried := nNew + new_, nTried + tried;
      assert Entries() == old(Entries());
    }

    /** Deletes an address that is in no bucket and in no tried list from the index. */
    method Forget(k: Key)
      requires Linked()
      requires forall i :: 0 <= i < addrNew.Length ==> k !in addrNew[i]
      requires forall i, ka :: 0 <= i < addrTried.Length && ka in addrTried[i] ==> ka.key != k
      modifies this`addrIndex
      ensures Linked() && addrIndex == old(addrIndex) - {k} && addrIndex.Values <= old(addrIndex.Values)
      ensures TheBook() == var b := old(TheBook()); b.(entries := b.entries - {k})
    {
      hide BucketKeys, ListKeys;
      addrIndex := addrIndex - {k};
      assert Entries() == old(Entries()) - {k};
    }

    lemma ListEntries(bucket: nat)
      requires Linked() && bucket < addrTried.Length
      ensures forall ka :: ka in addrTried[bucket] ==> ka.key in addrIndex && addrIndex[ka.key] == ka
    {}

    lemma NewLength()
      requires Linked()
      ensures |TheBook().new_| == addrNew.Length == NEW_BUCKET_COUNT && |TheBook().tried| == TRIED_BUCKET_COUNT
    {}

    lemma LinkedLengths()
      requires Linked()
      ensures addrNew.Length == NEW_BUCKET_COUNT == |TheBook().new_| && addrTried.Length == TRIED_BUCKET_COUNT == |TheBook().tried|
      ensures forall i :: 0 <= i < addrNew.Length ==> TheBook().new_[i] == addrNew[i].Keys
      ensures forall i :: 0 <= i < addrTried.Length ==> TheBook().tried[i] == KeyList(addrTried[i])
    {}

    lemma EntryOf(key: Key)
      requires Linked() && key in addrIndex
      ensures key in TheBook().entries && TheBook().entries[key] == Entry(addrIndex[key].refs, addrIndex[key].tried)
      ensures addrIndex[key].key == key && |TheBook().new_| == addrNew.Length
    {}

    lemma HasBuckets()
      requires Valid()
      ensures addrNew.Length > 0
    {}

    lemma IndexedKeys()
      ensures TheBook().entries.Keys == addrIndex.Keys
    {}

    lemma NotInIndex(bucket: nat, key: Key)
      requires Linked() && bucket < addrNew.Length && key !in addrIndex
      ensures key !in addrNew[bucket]
    {}

    lemma BucketKeysAt(bucket: nat)
      requires bucket < addrNew.Length
      ensures TheBook().new_[bucket] == addrNew[bucket].Keys && |addrNew[bucket].Keys| == |addrNew[bucket]|
    {}

    /** Takes an address out of a new bucket, and out of the index with its last
        reference. */
    method DropFromBucket(bucket: nat, k: Key, ghost moving: set<Key>)
      requires Linked() && Inv(TheBook(), moving) && bucket < addrNew.Length && k in addrNew[bucket] && k !in moving
      modifies this`addrIndex, this`nNew, this`nTried, addrNew, addrIndex.Values`refs
      ensures Linked() && TheBook() == OutOfBucket(old(TheBook()), bucket, k) && Inv(TheBook(), moving)
      ensures addrIndex.Values <= old(addrIndex.Values)
      ensures addrNew[bucket] == old(addrNew[bucket]) - {k}
      ensures forall m :: m in old(addrIndex) && m != k ==>
                m in addrIndex && addrIndex[m] == old(addrIndex[m]) && addrIndex[m].refs == old(addrIndex[m].refs)
    {
      hide Inv, BucketKeys, ListKeys, Entries, Linked, TheBook;
      LinkedLengths();
      LastReference(bucket, k, moving);
      OutOfBucketInv(TheBook(), bucket, k, moving);
      BucketEntry(bucket, k);
      EntryOf(k);
      var ka := addrNew[bucket][k];
      TakeFromBucket(bucket, k);
      AddRefs(ka, -1);
      if ka.refs == 0 {
        AddToCounters(-1, 0);
        Forget(k);
      }
    }

    /** An address with one reference is in one new bucket and in no tried list. */
    lemma LastReference(bucket: nat, k: Key, moving: set<Key>)
      requires Linked() && Inv(TheBook(), moving) && bucket < addrNew.Length && k in addrNew[bucket] && k !in moving
      ensures k in addrIndex && !addrIndex[k].tried
      ensures forall i, ka :: 0 <= i < addrTried.Length && ka in addrTried[i] ==> ka.key != k
      ensures addrIndex[k].refs == 1 ==> forall i :: 0 <= i < addrNew.Length && i != bucket ==> k !in addrNew[i]
    {
      hide Inv, EntryOk, BucketKeys, ListKeys, Keys, OutOfBucket;
      var b := TheBook();
      OutOfBucketInv(b, bucket, k, moving);
      OnlyBucket(b, bucket, k, moving);
      forall i, ka | 0 <= i < addrTried.Length && ka in addrTried[i] ensures ka.key != k {
        var j :| 0 <= j < |addrTried[i]| && addrTried[i][j] == ka;
        assert b.tried[i][j] == ka.key;
      }
    }

    /** Drops the bad addresses of a new bucket and finds the one of the others that was
        seen longest ago. */
    method DropBad(bucket: nat, bad: set<Key>, ghost moving: set<Key>) returns (oldest: KnownAddress?, ghost dropped: seq<Key>)
      requires Linked() && Inv(TheBook(), moving) && bucket < addrNew.Length && addrNew[bucket].Keys !! moving
      modifies this`addrIndex, this`nNew, this`nTried, addrNew, addrIndex.Values`refs
      ensures Linked() && Inv(TheBook(), moving)
      ensures TheBook() == OutOfBucketAll(old(TheBook()), bucket, dropped)
      ensures addrIndex.Values <= old(addrIndex.Values)
      ensures forall m :: m in old(addrIndex) && m !in old(addrNew[bucket]) ==>
                m in addrIndex && addrIndex[m] == old(addrIndex[m]) && addrIndex[m].refs == old(addrIndex[m].refs)
      ensures forall k :: k in addrNew[bucket] <==> k in old(addrNew[bucket]) && k !in bad
      ensures forall k :: k in addrNew[bucket] ==> addrNew[bucket][k] == old(addrNew[bucket][k])
      ensures forall k :: k in dropped <==> k in bad && k in old(addrNew[bucket])
      ensures oldest == null <==> addrNew[bucket] == map[]
      ensures oldest != null ==>
                && oldest.key in addrNew[bucket] && addrNew[bucket][oldest.key] == oldest
                && forall k :: k in addrNew[bucket] ==> oldest.timestamp <= addrNew[bucket][k].timestamp
    {
      hide Inv, OutOfBucket, OutOfBucketAll, BucketKeys, ListKeys, Linked, Entries, TheBook;
      NewLength();
      OutOfBucketNone(TheBook(), bucket);
      oldest, dropped := null, [];
      var todo := addrNew[bucket].Keys;
      while todo != {}
        invariant Linked() && Inv(TheBook(), moving) && addrIndex.Values <= old(addrIndex.Values)
        invariant TheBook() == OutOfBucketAll(old(TheBook()), bucket, dropped)
        invariant forall m :: m in old(addrIndex) && m !in old(addrNew[bucket]) ==>
                    m in addrIndex && addrIndex[m] == old(addrIndex[m]) && addrIndex[m].refs == old(addrIndex[m].refs)
        invariant forall k :: k in addrNew[bucket] <==> k in old(addrNew[bucket]) && (k in todo || k !in bad)
        invariant forall k :: k in addrNew[bucket] ==> addrNew[bucket][k] == old(addrNew[bucket][k])
        invariant forall k :: k in dropped <==> k in bad && k !in todo && k in old(addrNew[bucket])
        invariant todo <= addrNew[bucket].Keys
        invariant oldest == null ==> addrNew[bucket].Keys <= todo
        invariant oldest != null ==> oldest.key in addrNew[bucket] && oldest.key !in todo && addrNew[bucket][oldest.key] == oldest
        invariant oldest != null ==> forall k :: k in addrNew[bucket] && k !in todo ==> oldest.timestamp <= addrNew[bucket][k].timestamp
        decreases todo
      {
        var k :| k in todo;
        var v := addrNew[bucket][k];
        BucketEntry(bucket, k);
        todo := todo - {k};
        if k in bad {
          OutOfBucketAllStep(old(TheBook()), bucket, dropped, k);
          DropFromBucket(bucket, k, moving);
          dropped := dropped + [k];
        } else if oldest == null || v.timestamp <= oldest.timestamp {
          oldest := v;
        }
      }
    }

    lemma BucketEntry(bucket: nat, k: Key)
      requires Linked() && bucket < addrNew.Length && k in addrNew[bucket]
      ensures k in addrIndex && addrNew[bucket][k] == addrIndex[k] && addrIndex[k].key == k
    {}

    /** Makes room in a new bucket: drops the addresses that are bad and, of the others,
        one that was seen longest ago. */
    method ExpireNew(bucket: nat, bad: set<Key>, ghost moving: set<Key>) returns (ghost dropped: seq<Key>)
      requires Linked() && Inv(TheBook(), moving) && bucket < addrNew.Length && addrNew[bucket].Keys !! moving
      modifies this`addrIndex, this`nNew, this`nTried, addrNew, addrIndex.Values`refs
      ensures Linked() && Inv(TheBook(), moving)
      ensures TheBook() == OutOfBucketAll(old(TheBook()), bucket, dropped)
      ensures addrIndex.Values <= old(addrIndex.Values)
      ensures forall m :: m in old(addrIndex) && m !in old(addrNew[bucket]) ==>
                m in addrIndex && addrIndex[m] == old(addrIndex[m]) && addrIndex[m].refs == old(addrIndex[m].refs)
      ensures old(Expired(addrNew[bucket], bad, dropped))
      ensures old(addrNew[bucket]) != map[] ==> exists k :: k in dropped && k in old(addrNew[bucket].Keys)
      ensures addrNew[bucket].Keys == old(addrNew[bucket].Keys) - SetOf(dropped)
      ensures DropsBad(old(addrNew[bucket].Keys), bad, dropped)
    {
      hide Inv, OutOfBucket, OutOfBucketAll, BucketKeys, ListKeys, Linked, Entries, TheBook;
      NewLength();
      var oldest;
      oldest, dropped := DropBad(bucket, bad, moving);
      assert oldest == null && old(addrNew[bucket]) != map[] ==> exists k :: k in old(addrNew[bucket].Keys) && k in dropped;
      if oldest != null {
        OutOfBucketAllStep(old(TheBook()), bucket, dropped, oldest.key);
        DropFromBucket(bucket, oldest.key, moving);
        dropped := dropped + [oldest.key];
        assert oldest.key in old(addrNew[bucket]) && oldest.key in dropped;
      }
    }

    /** The addresses that are dropped from a bucket: all bad ones, and one of the
        others, if there are any. */
    static ghost predicate DropsBad(keys: set<Key>, bad: set<Key>, dropped: seq<Key>) {
      && (forall k :: k in dropped ==> k in keys)
      && (forall k :: k in keys && k in bad ==> k in dropped)
      && (keys <= bad || exists k :: k in keys && k !in bad && k in dropped && forall m :: m in dropped && m !in bad ==> m == k)
    }

    /** That other one is not newer than the rest. */
    ghost predicate Expired(bucket: map<Key, KnownAddress>, bad: set<Key>, dropped: seq<Key>)
      reads bucket.Values
    {
      && DropsBad(bucket.Keys, bad, dropped)
      && forall oldest :: oldest in dropped && oldest in bucket && oldest !in bad ==>
           forall k :: k in bucket && k !in bad ==> bucket[oldest].timestamp <= bucket[k].timestamp
    }

    /** The address is known and may get one more new bucket: it is not tried, in fewer
        than the maximum, and the draw, which gets rarer with each, comes up zero. */
    ghost predicate MayAddAgain(key: Key, draw: nat)
      requires Valid() && key in addrIndex
      reads this, addrNew, addrTried, addrIndex.Values
    {
      var e := TheBook().entries[key];
      !e.tried && e.refs != NEW_BUCKETS_PER_ADDRESS && (e.refs > 0 ==> draw % (2 * e.refs) == 0)
    }

    /** A draw of zero admits the address, and of as many draws in a row as it has twice
        references exactly one does. */
    lemma DrawsGetRarer(key: Key, d: nat) returns (x: nat)
      requires Valid() && key in addrIndex && !addrIndex[key].tried && addrIndex[key].refs < 8
      ensures MayAddAgain(key, 0) && addrIndex[key].refs > 0
      ensures d <= x < d + 2 * addrIndex[key].refs
      ensures forall y: nat :: d <= y < d + 2 * addrIndex[key].refs ==> (MayAddAgain(key, y) <==> y == x)
    {
      hide Inv, BucketKeys, ListKeys, Entries;
      EntryOf(key);
      NotTriedIsInBucket(TheBook(), key);
      x := OneMultiple(d, 2 * addrIndex[key].refs);
    }

    /** The book after an address was added to a new bucket that was made room in. */
    ghost function AddedTo(b: Book, bucket: nat, key: Key, dropped: seq<Key>): Book
      requires bucket < |b.new_|
    {
      var room := if |b.new_[bucket]| > NEW_BUCKET_SIZE then OutOfBucketAll(b, bucket, dropped) else b;
      if key in room.entries then InBucket(room, bucket, key) else room
    }

    /** Updates the time and the services of an address when there is news. */
    method Touch(ka: KnownAddress, timestamp: int, services: set<nat>)
      modifies ka`timestamp, ka`services
      ensures TheBook() == old(TheBook())
      ensures if old(ka.timestamp) < timestamp || !(services <= old(ka.services)) then
                ka.timestamp == timestamp && ka.services == old(ka.services) + services
              else
                ka.timestamp == old(ka.timestamp) && ka.services == old(ka.services)
    {
      if timestamp > ka.timestamp || !(services <= ka.services) {
        ka.timestamp := timestamp;
        ka.services := ka.services + services;
      }
    }

    /** Puts a new address into the index; it is in no bucket yet. */
    method NewAddress(key: Key, src: Key, timestamp: int, services: set<nat>) returns (ka: KnownAddress)
      requires Valid() && key !in addrIndex
      modifies this`addrIndex, this`nNew
      ensures fresh(ka) && ka.key == key && ka.refs == 0 && !ka.tried
      ensures ka.src == src && ka.timestamp == timestamp && ka.services == services
      ensures addrIndex == old(addrIndex)[key := ka]
      ensures Linked() && Inv(TheBook(), {key}) && TheBook() == WithEntry(old(TheBook()), key)
    {
      hide Inv, BucketKeys, ListKeys;
      WithEntryInv(TheBook(), key);
      ka := new KnownAddress(key, src, timestamp, services);
      addrIndex := addrIndex[key := ka];
      nNew := nNew + 1;
      assert Entries() == old(Entries())[key := Entry(0, false)];
    }

    lemma NotInValues(bucket: nat, ka: KnownAddress)
      requires Linked() && bucket < addrNew.Length && ka.key !in addrNew[bucket]
      ensures ka !in addrNew[bucket].Values
    {
      forall k | k in addrNew[bucket] ensures addrNew[bucket][k] != ka {
        assert addrNew[bucket][k] == addrIndex[k];
      }
    }

    lemma NotInBucket(bucket: nat, key: Key)
      requires Linked() && Inv(TheBook(), {key}) && bucket < addrNew.Length && key in addrIndex && addrIndex[key].refs == 0
      ensures key !in addrNew[bucket]
    {
      hide BucketKeys, ListKeys;
      assert EntryOk(TheBook(), {key}, key);
      NewCountZero(TheBook().new_, key);
      assert TheBook().new_[bucket] == addrNew[bucket].Keys;
    }

    lemma BucketSize(bucket: nat, moving: set<Key>)
      requires Linked() && Inv(TheBook(), moving) && bucket < addrNew.Length
      ensures |addrNew[bucket].Keys| == |addrNew[bucket]| <= NEW_BUCKET_SIZE + 1
    {
      hide BucketKeys, ListKeys;
      assert TheBook().new_[bucket] == addrNew[bucket].Keys;
    }

    /** A bucket gets one address more than its size exactly if it is full to its size, or
        over it already and without a bad address to drop. */
    ghost predicate GoesOverSize(bucket: nat, bad: set<Key>)
      requires bucket < addrNew.Length
      reads addrNew
    {
      |addrNew[bucket]| == NEW_BUCKET_SIZE || (|addrNew[bucket]| > NEW_BUCKET_SIZE && addrNew[bucket].Keys !! bad)
    }

    static lemma SizeLeft(before: map<Key, KnownAddress>, after: map<Key, KnownAddress>, bad: set<Key>, dropped: seq<Key>)
      requires after.Keys == before.Keys - SetOf(dropped)
      requires DropsBad(before.Keys, bad, dropped)
      ensures |before| > 0 ==> |after| < |before|
      ensures |before| > 1 ==> (|after| == |before| - 1 <==> before.Keys !! bad)
    {
      assert |after| == |after.Keys| && |before| == |before.Keys|;
      if before.Keys != {} {
        SizeAfterDropping(before.Keys, bad, dropped);
      }
    }

    /** How many are left when all bad ones are dropped, and one of the others. */
    static lemma SizeAfterDropping(keys: set<Key>, bad: set<Key>, dropped: seq<Key>)
      requires keys != {} && DropsBad(keys, bad, dropped)
      ensures |keys - SetOf(dropped)| < |keys|
      ensures |keys| > 1 ==> (|keys - SetOf(dropped)| == |keys| - 1 <==> keys !! bad)
    {
      var gone := SetOf(dropped);
      assert keys == (keys - gone) + gone && (keys - gone) !! gone;
      if keys <= bad {
        assert gone == keys && keys * bad == keys;
      } else {
        var k :| k in keys && k !in bad && k in dropped && forall m :: m in dropped && m !in bad ==> m == k;
        assert gone == (keys * bad) + {k};
      }
    }

    /** Adds an address to a new bucket, after making room in it if it is over its size. */
    method AddToBucket(ka: KnownAddress, bucket: nat, bad: set<Key>, ghost moving: set<Key>) returns (ghost dropped: seq<Key>)
      requires Linked() && Inv(TheBook(), moving) && moving <= {ka.key} && bucket < addrNew.Length
      requires ka.key in addrIndex && addrIndex[ka.key] == ka && ka.key !in addrNew[bucket]
      requires !ka.tried && ka.refs < NEW_BUCKETS_PER_ADDRESS
      modifies this`addrIndex, this`nNew, this`nTried, addrNew, addrIndex.Values`refs
      ensures Valid() && addrIndex.Values <= old(addrIndex.Values)
      ensures TheBook() == AddedTo(old(TheBook()), bucket, ka.key, dropped)
      ensures dropped != [] ==> old(Expired(addrNew[bucket], bad, dropped))
      ensures EntersBucket(old(TheBook()), TheBook(), bucket, ka.key, dropped)
      ensures |addrNew[bucket]| == NEW_BUCKET_SIZE + 1 <==> old(GoesOverSize(bucket, bad))
      ensures ka.key in addrIndex && addrIndex[ka.key] == ka
    {
      hide Inv, OutOfBucketAll, BucketKeys, ListKeys, Entries, Linked, InBucket, Expired, DropsBad, TheBook, SetOf, GoesOverSize, EntersBucket, AddedTo;
      EntryOf(ka.key);
      dropped := MakeRoom(bucket, bad, ka.key, moving);
      EntryOf(ka.key);
      ghost var room := TheBook();
      InsertIntoBucket(ka, bucket, moving);
      EntersAfterRoom(old(TheBook()), room, TheBook(), bucket, ka.key, dropped);
    }

    /** A book after room was made in a bucket. */
    static ghost predicate RoomMade(before: Book, room: Book, bucket: nat, dropped: seq<Key>) {
      && bucket < |before.new_| == |room.new_|
      && room == (if |before.new_[bucket]| > NEW_BUCKET_SIZE then OutOfBucketAll(before, bucket, dropped) else before)
      && (dropped != [] <==> |before.new_[bucket]| > 64)
      && room.new_[bucket] == before.new_[bucket] - SetOf(dropped)
    }

    lemma EntersAfterRoom(before: Book, room: Book, after: Book, bucket: nat, key: Key, dropped: seq<Key>)
      requires RoomMade(before, room, bucket, dropped) && key in room.entries && after == InBucket(room, bucket, key)
      ensures bucket < |before.new_| && after == AddedTo(before, bucket, key, dropped)
      ensures EntersBucket(before, after, bucket, key, dropped)
    {
      AddedElsewhere(before, bucket, key, dropped);
    }

    lemma AddedElsewhere(b: Book, bucket: nat, key: Key, dropped: seq<Key>)
      requires bucket < |b.new_|
      ensures var r := AddedTo(b, bucket, key, dropped);
              r.tried == b.tried && |r.new_| == |b.new_| && forall j :: 0 <= j < |b.new_| && j != bucket ==> r.new_[j] == b.new_[j]
    {
      DroppedElsewhere(b, bucket, dropped);
    }

    /** An address enters a new bucket: some may be dropped from the bucket if it holds
        more than 64, and no other bucket or list changes. */
    static ghost predicate EntersBucket(before: Book, after: Book, bucket: nat, key: Key, dropped: seq<Key>) {
      && |after.new_| == |before.new_| && bucket < |before.new_| && after.tried == before.tried
      && (dropped != [] <==> |before.new_[bucket]| > 64)
      && after.new_[bucket] == before.new_[bucket] - SetOf(dropped) + {key}
      && forall i :: 0 <= i < |before.new_| && i != bucket ==> after.new_[i] == before.new_[i]
    }

    static lemma EntersAsNew(before: Book, after: Book, bucket: nat, key: Key, dropped: seq<Key>)
      requires EntersBucket(WithEntry(before, key), after, bucket, key, dropped)
      ensures EntersBucket(before, after, bucket, key, dropped)
    {}

    /** Takes addresses out of a bucket that is over its size, for one that is to enter. */
    method MakeRoom(bucket: nat, bad: set<Key>, ghost key: Key, ghost moving: set<Key>) returns (ghost dropped: seq<Key>)
      requires Linked() && Inv(TheBook(), moving) && moving <= {key} && bucket < addrNew.Length
      requires key in addrIndex && key !in addrNew[bucket]
      modifies this`addrIndex, this`nNew, this`nTried, addrNew, addrIndex.Values`refs
      ensures Linked() && Inv(TheBook(), moving) && addrIndex.Values <= old(addrIndex.Values) && bucket < |old(TheBook()).new_|
      ensures RoomMade(old(TheBook()), TheBook(), bucket, dropped)
      ensures dropped != [] ==> old(Expired(addrNew[bucket], bad, dropped))
      ensures key !in addrNew[bucket] && |addrNew[bucket]| <= NEW_BUCKET_SIZE
      ensures |addrNew[bucket]| == NEW_BUCKET_SIZE <==> old(GoesOverSize(bucket, bad))
      ensures key in addrIndex && addrIndex[key] == old(addrIndex[key]) && addrIndex[key].refs == old(addrIndex[key].refs)
    {
      hide Inv, OutOfBucketAll, BucketKeys, ListKeys, Entries, Linked, Expired, DropsBad, TheBook;
      NewLength();
      BucketKeysAt(bucket);
      dropped := [];
      if |addrNew[bucket]| > NEW_BUCKET_SIZE {
        BucketSize(bucket, moving);
        dropped := ExpireNew(bucket, bad, moving);
        SizeLeft(old(addrNew[bucket]), addrNew[bucket], bad, dropped);
        BucketKeysAt(bucket);
      }
    }

    method InsertIntoBucket(ka: KnownAddress, bucket: nat, ghost moving: set<Key>)
      requires Linked() && Inv(TheBook(), moving) && moving <= {ka.key} && bucket < addrNew.Length
      requires ka.key in addrIndex && addrIndex[ka.key] == ka && ka.key !in addrNew[bucket]
      requires !ka.tried && ka.refs < NEW_BUCKETS_PER_ADDRESS && |addrNew[bucket]| <= NEW_BUCKET_SIZE
      modifies addrNew, ka`refs
      ensures Valid() && ka.key in old(TheBook()).entries && bucket < |old(TheBook()).new_|
      ensures TheBook() == InBucket(old(TheBook()), bucket, ka.key)
      ensures |addrNew[bucket]| == old(|addrNew[bucket]|) + 1
      ensures addrNew[bucket].Keys == old(addrNew[bucket].Keys) + {ka.key}
    {
      hide Inv, BucketKeys, ListKeys, Entries, Linked, TheBook;
      EntryOf(ka.key);
      BucketKeysAt(bucket);
      InBucketInv(TheBook(), bucket, ka.key, moving);
      AddRefs(ka, 1);
      PutInBucket(bucket, ka);
      OneMoreKey(old(addrNew[bucket]), addrNew[bucket], ka.key);
    }

    static lemma OneMoreKey(before: map<Key, KnownAddress>, after: map<Key, KnownAddress>, k: Key)
      requires k !in before && after.Keys == before.Keys + {k}
      ensures |after| == |before| + 1
    {
      assert |after| == |after.Keys| && |before| == |before.Keys|;
    }

    /** Updates what is known about an address, or adds it. */
    method UpdateAddress(key: Key, src: Key, timestamp: int, services: set<nat>, routable: bool, draw: nat, bucket: nat, bad: set<Key>)
      returns (ghost added: bool, ghost dropped: seq<Key>)
      requires Valid() && bucket < addrNew.Length
      modifies this`addrIndex, this`nNew, this`nTried, addrNew, addrIndex.Values
      ensures Valid() && fresh(addrIndex.Values - old(addrIndex.Values))
      ensures added <==>
                routable && (key in old(addrIndex) ==> old(MayAddAgain(key, draw)) && key !in old(addrNew[bucket]))
      ensures !added ==> TheBook() == old(TheBook())
      ensures added ==> (|addrNew[bucket]| == NEW_BUCKET_SIZE + 1 <==> old(GoesOverSize(bucket, bad)))
      ensures added && dropped != [] ==> old(Expired(addrNew[bucket], bad, dropped))
      ensures added ==> EntersBucket(old(TheBook()), TheBook(), bucket, key, dropped)
      ensures routable && key in old(addrIndex) ==>
                old(addrIndex[key]).services == old(addrIndex[key].services) + services
      ensures routable && key in old(addrIndex) ==>
                old(addrIndex[key]).timestamp ==
                if old(addrIndex[key].timestamp) < timestamp || !(services <= old(addrIndex[key].services)) then timestamp
                else old(addrIndex[key].timestamp)
      ensures routable && key !in old(addrIndex) ==>
                key in addrIndex && var ka := addrIndex[key]; ka.src == src && ka.timestamp == timestamp && ka.services == services
      ensures added ==>
                var b := if key in old(addrIndex) then old(TheBook()) else WithEntry(old(TheBook()), key);
                TheBook() == AddedTo(b, bucket, key, dropped)
    {
      hide Inv, OutOfBucketAll, BucketKeys, ListKeys, Linked, Entries, InBucket, WithEntry, AddedTo, Expired, GoesOverSize, EntersBucket, TheBook;
      added, dropped := false, [];
      if !routable {
        return;
      }
      if key in addrIndex {
        var ka := addrIndex[key];
        Touch(ka, timestamp, services);
        EntryOf(key);
        if ka.tried {
          return;
        }
        if ka.refs == NEW_BUCKETS_PER_ADDRESS {
          return;
        }
        NotTriedIsInBucket(TheBook(), key);
        var factor := 2 * ka.refs;
        if draw % factor != 0 {
          return;
        }
        if key in addrNew[bucket] {
          return;
        }
        NotInValues(bucket, ka);
        dropped := AddToBucket(ka, bucket, bad, {});
      } else {
        var ka := NewAddress(key, src, timestamp, services);
        NotInBucket(bucket, key);
        dropped := AddToBucket(ka, bucket, bad, {key});
        EntersAsNew(old(TheBook()), TheBook(), bucket, key, dropped);
      }
      added := true;
    }

    // ----- Good -----

    /** The book when an address has left its new buckets. */
    ghost function Moving(b: Book, key: Key): (r: Book)
      ensures |r.new_| == |b.new_| && |r.tried| == |b.tried|
    {
      if key in b.entries then Cleared(b, key, NEW_BUCKET_COUNT, 0) else b
    }

    /** No address of a list was seen before the one at a place, nor at the same time
        and earlier in the list. */
    ghost predicate Eldest(list: seq<KnownAddress>, place: nat)
      reads list`timestamp
    {
      && place < |list|
      && forall j :: 0 <= j < |list| ==>
           list[place].timestamp <= list[j].timestamp && (j < place ==> list[place].timestamp < list[j].timestamp)
    }

    method MarkSuccess(ka: KnownAddress, now: int)
      modifies ka`lastSuccess, ka`lastAttempt, ka`attempts
      ensures TheBook() == old(TheBook())
      ensures ka.lastSuccess == now && ka.lastAttempt == now && ka.attempts == 0
    {
      hide BucketKeys, ListKeys;
      ka.lastSuccess, ka.lastAttempt, ka.attempts := now, now, 0;
      assert Entries() == old(Entries());
    }

    /** A bucket that an address has left has room for another one. */
    lemma RoomInOldBucket(b: Book, key: Key, oldBucket: nat)
      requires Inv(b, {}) && key in b.entries && oldBucket == FirstBucket(b.new_, key) < |b.new_|
      requires oldBucket < addrNew.Length && addrNew[oldBucket].Keys == b.new_[oldBucket] - {key}
      ensures |addrNew[oldBucket]| <= NEW_BUCKET_SIZE
    {
      assert |addrNew[oldBucket].Keys| == |addrNew[oldBucket]|;
    }

    /** Takes an address that is not tried out of all new buckets; the result is the
        first of them, or -1. */
    method LeaveNewBuckets(ka: KnownAddress) returns (oldBucket: int)
      requires Valid() && ka.key in addrIndex && addrIndex[ka.key] == ka && !ka.tried
      modifies addrNew, ka`refs
      ensures Linked() && Inv(TheBook(), {ka.key}) && ka.key in old(TheBook()).entries
      ensures TheBook() == Moving(old(TheBook()), ka.key) && ka.refs == 0
      ensures forall i :: 0 <= i < addrNew.Length ==> addrNew[i].Keys == old(addrNew[i].Keys) - {ka.key}
      ensures oldBucket == FirstBucket(old(TheBook()).new_, ka.key) < addrNew.Length
    {
      hide Inv, BucketKeys, ListKeys, Linked, Entries, Cleared, Leaving, FirstBucket, TheBook;
      ghost var b, k := TheBook(), ka.key;
      EntryOf(k);
      LinkedLengths();
      ClearedStart(b, k);
      NotTriedIsInBucket(b, k);
      oldBucket := -1;
      var i := 0;
      while i < addrNew.Length
        invariant 0 <= i <= addrNew.Length && Linked() && Inv(TheBook(), {k})
        invariant TheBook() == Cleared(b, k, i, ka.refs)
        invariant forall j :: i <= j < addrNew.Length ==> addrNew[j].Keys == b.new_[j]
        invariant forall j :: 0 <= j < i ==> addrNew[j].Keys == b.new_[j] - {k}
        invariant oldBucket == if FirstBucket(b.new_, k) < i then FirstBucket(b.new_, k) else -1
      {
        ClearedStep(b, k, i, ka.refs);
        if ka.key in addrNew[i] {
          LeaveBucket(ka, i);
          if oldBucket == -1 {
            oldBucket := i;
          }
        } else {
          assert b.new_[i] - {k} == b.new_[i];
        }
        i := i + 1;
      }
      ClearedHasNoRefs(b, k, ka.refs);
    }

    method LeaveBucket(ka: KnownAddress, bucket: nat)
      requires Linked() && Inv(TheBook(), {ka.key}) && bucket < addrNew.Length && ka.key in addrNew[bucket]
      requires ka.key in addrIndex && addrIndex[ka.key] == ka && !ka.tried
      modifies addrNew, ka`refs
      ensures Linked() && Inv(TheBook(), {ka.key})
      ensures forall i :: 0 <= i < addrNew.Length && i != bucket ==> addrNew[i] == old(addrNew[i])
      ensures addrNew[bucket].Keys == old(addrNew[bucket].Keys) - {ka.key}
      ensures ka.key in old(TheBook()).entries && bucket < |old(TheBook()).new_|
      ensures TheBook() == Leaving(old(TheBook()), bucket, ka.key) && ka.refs == old(ka.refs) - 1
    {
      hide Inv, BucketKeys, ListKeys, Entries, Linked, TheBook;
      EntryOf(ka.key);
      BucketKeysAt(bucket);
      LeavingInv(TheBook(), bucket, ka.key);
      TakeFromBucket(bucket, ka.key);
      AddRefs(ka, -1);
    }

    /** The place of the address in a tried list that was seen longest ago. */
    method PickTried(bucket: nat) returns (place: nat)
      requires bucket < addrTried.Length && addrTried[bucket] != []
      ensures Eldest(addrTried[bucket], place)
    {
      place := 0;
      var e := 1;
      while e < |addrTried[bucket]|
        invariant 0 <= place < e <= |addrTried[bucket]|
        invariant forall j :: 0 <= j < e ==>
                    addrTried[bucket][place].timestamp <= addrTried[bucket][j].timestamp
                    && (j < place ==> addrTried[bucket][place].timestamp < addrTried[bucket][j].timestamp)
      {
        if addrTried[bucket][place].timestamp > addrTried[bucket][e].timestamp {
          place := e;
        }
        e := e + 1;
      }
    }

    /** Appends an address to a tried list with room. */
    method Promote(ka: KnownAddress, bucket: nat)
      requires Linked() && Inv(TheBook(), {ka.key}) && ka.key in addrIndex && addrIndex[ka.key] == ka
      requires ka.refs == 0 && !ka.tried && bucket < addrTried.Length && |addrTried[bucket]| < TRIED_BUCKET_SIZE
      modifies this`nNew, this`nTried, addrTried, ka`refs, ka`tried
      ensures Valid() && bucket < |old(TheBook()).tried|
      ensures TheBook() == Promoted(old(TheBook()), ka.key, bucket)
    {
      hide Inv, BucketKeys, ListKeys, Entries, Linked, TheBook;
      EntryOf(ka.key);
      LinkedLengths();
      ListEntries(bucket);
      PromotedInv(TheBook(), ka.key, bucket);
      SetEntry(ka, 0, true);
      SetTried(bucket, addrTried[bucket] + [ka]);
      AddToCounters(-1, 1);
      assert KeyList(old(addrTried[bucket]) + [ka]) == old(KeyList(addrTried[bucket])) + [ka.key];
    }

    /** Puts an address in the place of another one in a tried list, and that one back
        into a new bucket. */
    method Replace(ka: KnownAddress, bucket: nat, place: nat, newBucket: nat)
      requires Linked() && Inv(TheBook(), {ka.key}) && ka.key in addrIndex && addrIndex[ka.key] == ka
      requires ka.refs == 0 && !ka.tried && bucket < addrTried.Length && place < |addrTried[bucket]|
      requires newBucket < addrNew.Length && |addrNew[newBucket]| <= NEW_BUCKET_SIZE
      modifies addrNew, addrTried, addrIndex.Values`refs, addrIndex.Values`tried
      ensures Valid()
      ensures var b := old(TheBook());
              bucket < |b.tried| && place < |b.tried[bucket]| && newBucket < |b.new_|
              && TheBook() == Replaced(b, ka.key, bucket, place, newBucket)
      ensures |addrNew[newBucket]| == old(|addrNew[newBucket]|) + 1
    {
      hide Inv, BucketKeys, ListKeys, Entries, Linked, TheBook;
      var rmka := addrTried[bucket][place];
      EntryOf(ka.key);
      LinkedLengths();
      ListEntries(bucket);
      ReplacedInv(TheBook(), ka.key, bucket, place, newBucket);
      EntryOf(rmka.key);
      SetEntry(ka, 0, true);
      SetTried(bucket, addrTried[bucket][place := ka]);
      SetEntry(rmka, rmka.refs + 1, false);
      PutInBucket(newBucket, rmka);
      OneMoreKey(old(addrNew[newBucket]), addrNew[newBucket], rmka.key);
      assert KeyList(old(addrTried[bucket])[place := ka]) == old(KeyList(addrTried[bucket]))[place := ka.key];
    }

    /** Makes room for an address in a full tried list and takes the place. */
    method Evict(ka: KnownAddress, bucket: nat, newBucket0: nat, oldBucket: nat, ghost b0: Book) returns (place: nat, newBucket: nat)
      requires Linked() && Inv(TheBook(), {ka.key}) && ka.key in addrIndex && addrIndex[ka.key] == ka
      requires ka.refs == 0 && !ka.tried && bucket < addrTried.Length && newBucket0 < addrNew.Length && addrTried[bucket] != []
      requires Inv(b0, {}) && ka.key in b0.entries && oldBucket == FirstBucket(b0.new_, ka.key) < |b0.new_|
      requires oldBucket < addrNew.Length && addrNew[oldBucket].Keys == b0.new_[oldBucket] - {ka.key}
      modifies addrNew, addrTried, addrIndex.Values`refs, addrIndex.Values`tried
      ensures Valid()
      ensures newBucket == if old(|addrNew[newBucket0]|) >= NEW_BUCKET_SIZE then oldBucket else newBucket0
      ensures |addrNew[newBucket]| == NEW_BUCKET_SIZE + 1 <==>
                old(|addrNew[newBucket0]|) >= NEW_BUCKET_SIZE && old(|addrNew[oldBucket]|) == NEW_BUCKET_SIZE
      ensures old(Eldest(addrTried[bucket], place))
      ensures var b := old(TheBook());
              bucket < |b.tried| && place < |b.tried[bucket]| && newBucket < |b.new_|
              && TheBook() == Replaced(b, ka.key, bucket, place, newBucket)
    {
      hide Inv, BucketKeys, ListKeys, Entries, Linked, FirstBucket, Replaced, Keys;
      place := PickTried(bucket);
      newBucket := newBucket0;
      if |addrNew[newBucket0]| >= NEW_BUCKET_SIZE {
        newBucket := oldBucket;
        RoomInOldBucket(b0, ka.key, oldBucket);
      }
      Replace(ka, bucket, place, newBucket);
    }

    /** Moves an address that is not tried to a tried list, or into one. */
    method MoveToTried(ka: KnownAddress, bucket: nat, newBucket0: nat) returns (ghost place: nat, ghost newBucket: nat)
      requires Valid() && bucket < addrTried.Length && newBucket0 < addrNew.Length
      requires ka.key in addrIndex && addrIndex[ka.key] == ka && !ka.tried
      modifies this`nNew, this`nTried, addrNew, addrTried, addrIndex.Values`refs, addrIndex.Values`tried
      ensures Valid()
      ensures MovedToTried(old(TheBook()), TheBook(), ka.key, bucket, newBucket0, place, newBucket)
      ensures old(|addrTried[bucket]|) < TRIED_BUCKET_SIZE || old(Eldest(addrTried[bucket], place))
    {
      hide Inv, BucketKeys, ListKeys, KeyList, Entries, Linked, Moving, FirstBucket, Promoted, Replaced, Eldest, Keys;
      place, newBucket := 0, 0;
      LinkedLengths();
      EntryOf(ka.key);
      ghost var b0 := TheBook();
      var oldBucket := LeaveNewBuckets(ka);
      LinkedLengths();
      if oldBucket == -1 {
        return;
      }
      BucketKeysAt(newBucket0);
      if |addrTried[bucket]| < TRIED_BUCKET_SIZE {
        Promote(ka, bucket);
      } else {
        var p, nb := Evict(ka, bucket, newBucket0, oldBucket, b0);
        place, newBucket := p, nb;
      }
    }

    /** Moves an address that proved good to a tried list.  When that is full, the
        address in it that was seen longest ago goes back to a new bucket. */
    method Good(key: Key, now: int, bucket: nat, newBucket0: nat) returns (ghost place: nat, ghost newBucket: nat)
      requires Valid() && bucket < addrTried.Length && newBucket0 < addrNew.Length
      modifies this`nNew, this`nTried, addrNew, addrTried, addrIndex.Values
      ensures Valid()
      ensures key in old(addrIndex) ==>
                var ka := old(addrIndex[key]); ka.lastSuccess == now && ka.lastAttempt == now && ka.attempts == 0
      ensures key !in old(addrIndex) || old(addrIndex[key].tried) ==> TheBook() == old(TheBook())
      ensures key in old(addrIndex) && !old(addrIndex[key].tried) ==>
                MovedToTried(old(TheBook()), TheBook(), key, bucket, newBucket0, place, newBucket)
                && (old(|addrTried[bucket]|) < TRIED_BUCKET_SIZE || old(Eldest(addrTried[bucket], place)))
    {
      hide Inv, BucketKeys, ListKeys, KeyList, Entries, Linked, MovedToTried, Eldest;
      place, newBucket := 0, 0;
      if key !in addrIndex {
        return;
      }
      var ka := addrIndex[key];
      MarkSuccess(ka, now);
      EntryOf(key);
      if ka.tried {
        return;
      }
      place, newBucket := MoveToTried(ka, bucket, newBucket0);
    }

    /** How the book changes when an address becomes tried: it leaves the new buckets,
        and enters the tried list or takes a place in it; the one that had the place
        goes to its new bucket if that has room, and else to the first bucket that was
        left. */
    ghost predicate MovedToTried(before: Book, after: Book, key: Key, bucket: nat, newBucket0: nat, place: nat, newBucket: nat) {
      var b := Moving(before, key);
      && bucket < |b.tried| && newBucket0 < |b.new_|
      && if |b.tried[bucket]| < TRIED_BUCKET_SIZE then
           after == Promoted(b, key, bucket)
         else
           && place < |b.tried[bucket]|
           && newBucket == (if |b.new_[newBucket0]| >= NEW_BUCKET_SIZE then FirstBucket(before.new_, key) else newBucket0)
           && newBucket < |b.new_|
           && after == Replaced(b, key, bucket, place, newBucket)
    }

    /** In terms of the buckets: the address leaves every new bucket and is put at the end
        of the tried list, or, if that holds 256, in the place of another one.  That one
        goes to its new bucket if there are fewer than 64 addresses left, and else to the
        first bucket that the address has left. */
    lemma MovedBuckets(before: Book, after: Book, key: Key, bucket: nat, newBucket0: nat, place: nat, newBucket: nat)
      requires MovedToTried(before, after, key, bucket, newBucket0, place, newBucket)
      requires Inv(before, {}) && key in before.entries
      ensures bucket < |before.tried| && newBucket0 < |before.new_| == |after.new_|
      ensures if |before.tried[bucket]| < 256 then
                && after.tried == before.tried[bucket := before.tried[bucket] + [key]]
                && forall i :: 0 <= i < |before.new_| ==> after.new_[i] == before.new_[i] - {key}
              else
                && place < |before.tried[bucket]|
                && after.tried == before.tried[bucket := before.tried[bucket][place := key]]
                && (forall i :: 0 <= i < |before.new_| ==>
                      after.new_[i] == before.new_[i] - {key} + if i == newBucket then {before.tried[bucket][place]} else {})
                && (if |before.new_[newBucket0] - {key}| < 64 then newBucket == newBucket0
                    else newBucket < |before.new_| && key in before.new_[newBucket] && forall i :: 0 <= i < newBucket ==> key !in before.new_[i])
    {
      hide Keys, NewCount, TriedCount;
    }

    // ----- Saving and loading -----

    /** The keys of a map in some order. */
    static method InSomeOrder(keys: set<Key>) returns (list: seq<Key>)
      ensures Distinct(list) && SetOf(list) == keys
    {
      list := [];
      var todo := keys;
      while todo != {}
        invariant Distinct(list) && todo <= keys
        invariant forall k :: k in list <==> k in keys && k !in todo
        decreases todo
      {
        var k :| k in todo;
        list := list + [k];
        todo := todo - {k};
      }
    }

    /** What is saved of an address. */
    static function ToSave(ka: KnownAddress): SavedAddress
      reads ka`services, ka`attempts, ka`lastAttempt, ka`lastSuccess
    {
      SavedAddress(ka.key, ka.src, ka.services, ka.attempts, ka.lastAttempt, ka.lastSuccess)
    }

    /** Saves the addresses and what the buckets hold. */
    method SavePeers() returns (sam: SavedManager)
      requires Valid()
      ensures Holds(sam, TheBook()) && sam.version == SERIALISATION_VERSION == 2
      ensures forall i :: 0 <= i < |sam.addresses| ==>
                sam.addresses[i].addr in addrIndex && sam.addresses[i] == ToSave(addrIndex[sam.addresses[i].addr])
      ensures forall i, j :: 0 <= i < j < |sam.addresses| ==> sam.addresses[i].addr != sam.addresses[j].addr
    {
      hide Inv, BucketKeys, ListKeys, Distinct, SetOf;
      LinkedLengths();
      var addresses := SaveAddresses();
      var newBuckets: seq<seq<Key>> := [];
      for i := 0 to addrNew.Length
        invariant |newBuckets| == i
        invariant forall j :: 0 <= j < i ==> Distinct(newBuckets[j]) && SetOf(newBuckets[j]) == addrNew[j].Keys
      {
        var list := InSomeOrder(addrNew[i].Keys);
        newBuckets := newBuckets + [list];
      }
      var triedBuckets: seq<seq<Key>> := [];
      for i := 0 to addrTried.Length
        invariant |triedBuckets| == i
        invariant forall j :: 0 <= j < i ==> triedBuckets[j] == KeyList(addrTried[j])
      {
        var list := KeysInOrder(addrTried[i]);
        triedBuckets := triedBuckets + [list];
      }
      sam := SavedManager(SERIALISATION_VERSION, addresses, newBuckets, triedBuckets);
    }

    static method KeysInOrder(list: seq<KnownAddress>) returns (keys: seq<Key>)
      ensures keys == KeyList(list)
    {
      keys := [];
      for j := 0 to |list|
        invariant |keys| == j && forall x :: 0 <= x < j ==> keys[x] == list[x].key
      {
        keys := keys + [list[j].key];
      }
    }

    method SaveAddresses() returns (addresses: seq<SavedAddress>)
      requires Linked()
      ensures forall k :: k in addrIndex <==> exists i :: 0 <= i < |addresses| && addresses[i].addr == k
      ensures forall i :: 0 <= i < |addresses| ==>
                addresses[i].addr in addrIndex && addresses[i] == ToSave(addrIndex[addresses[i].addr])
      ensures forall i, j :: 0 <= i < j < |addresses| ==> addresses[i].addr != addresses[j].addr
    {
      var keys := InSomeOrder(addrIndex.Keys);
      assert forall k :: k in addrIndex <==> k in SetOf(keys);
      addresses := [];
      for i := 0 to |keys|
        invariant |addresses| == i
        invariant forall j :: 0 <= j < i ==> keys[j] in addrIndex && addresses[j].addr == keys[j] && addresses[j] == ToSave(addrIndex[keys[j]])
      {
        assert keys[i] in SetOf(keys);
        addresses := addresses + [ToSave(addrIndex[keys[i]])];
      }
      forall k | k in addrIndex ensures exists i :: 0 <= i < |addresses| && addresses[i].addr == k {
        assert k in SetOf(keys);
        var i :| 0 <= i < |keys| && keys[i] == k;
        assert addresses[i].addr == k;
      }
    }

    /** Nothing is known yet. */
    ghost predicate IsNew()
      reads this, addrNew, addrTried
    {
      && Linked() && addrIndex == map[] && nNew == 0 && nTried == 0
      && (forall i :: 0 <= i < addrNew.Length ==> addrNew[i] == map[])
      && (forall i :: 0 <= i < addrTried.Length ==> addrTried[i] == [])
    }

    /** What is known of an address is what was saved of it, under the texts that its own
        and its source's parse to.  Files of the first version have no services. */
    static ghost predicate FromAddress(version: nat, v: SavedAddress, parses: map<Key, Key>, ka: KnownAddress)
      reads ka`services, ka`attempts, ka`lastAttempt, ka`lastSuccess
    {
      && v.addr in parses && ka.key == parses[v.addr]
      && v.src in parses && ka.src == parses[v.src]
      && ka.services == (if version == 1 then SF_NODE_NETWORK else v.services)
      && ka.attempts == v.attempts && ka.lastAttempt == v.lastAttempt && ka.lastSuccess == v.lastSuccess
    }

    /** The last saved address with a text that parses to a key. */
    static ghost predicate IsLast(addresses: seq<SavedAddress>, parses: map<Key, Key>, j: int, k: Key) {
      && 0 <= j < |addresses| && Parsed(parses, addresses[j].addr) == k
      && forall i :: j < i < |addresses| ==> Parsed(parses, addresses[i].addr) != k
    }

    /** An address is what the j-th saved one says, and no later one is about it. */
    static ghost predicate LastFrom(version: nat, addresses: seq<SavedAddress>, parses: map<Key, Key>, j: int, ka: KnownAddress)
      reads ka`services, ka`attempts, ka`lastAttempt, ka`lastSuccess
    {
      IsLast(addresses, parses, j, ka.key) && FromAddress(version, addresses[j], parses, ka)
    }

    /** What is known of every address is what was saved last. */
    static ghost predicate AsLoaded(version: nat, addresses: seq<SavedAddress>, parses: map<Key, Key>, index: map<Key, KnownAddress>)
      reads index.Values`services, index.Values`attempts, index.Values`lastAttempt, index.Values`lastSuccess
    {
      forall k :: k in index ==> index[k].key == k && exists j :: LastFrom(version, addresses, parses, j, index[k])
    }

    static method FromSaved(version: nat, v: SavedAddress, parses: map<Key, Key>, now: int) returns (ka: KnownAddress)
      requires v.addr in parses && v.src in parses
      ensures fresh(ka) && ka.refs == 0 && !ka.tried && FromAddress(version, v, parses, ka)
    {
      var services := if version == 1 then SF_NODE_NETWORK else v.services;
      ka := new KnownAddress(parses[v.addr], parses[v.src], now, services);
      ka.attempts, ka.lastAttempt, ka.lastSuccess := v.attempts, v.lastAttempt, v.lastSuccess;
    }

    /** Creates the known addresses, each under the textual form of what its saved text
        parses to; fails when one does not parse. */
    method LoadAddresses(version: nat, addresses: seq<SavedAddress>, parses: map<Key, Key>, now: int) returns (ok: bool)
      requires IsNew()
      modifies this`addrIndex
      ensures ok <==> forall i :: 0 <= i < |addresses| ==> addresses[i].addr in parses && addresses[i].src in parses
      ensures Linked() && fresh(addrIndex.Values)
      ensures ok ==> addrIndex.Keys == set i | 0 <= i < |addresses| :: Parsed(parses, addresses[i].addr)
      ensures forall k :: k in addrIndex ==> addrIndex[k].refs == 0 && !addrIndex[k].tried
      ensures ok ==> AsLoaded(version, addresses, parses, addrIndex)
    {
      hide AsLoaded, FromAddress;
      NothingAsLoaded(version, parses, addrIndex);
      ok := true;
      var i := 0;
      while i < |addresses|
        invariant 0 <= i <= |addresses|
        invariant forall j :: 0 <= j < i ==> addresses[j].addr in parses && addresses[j].src in parses
        invariant forall k :: k in addrIndex ==> addrIndex[k].key == k && addrIndex[k].refs == 0 && !addrIndex[k].tried && fresh(addrIndex[k])
        invariant addrIndex.Keys == set j | 0 <= j < i :: Parsed(parses, addresses[j].addr)
        invariant AsLoaded(version, addresses[..i], parses, addrIndex)
      {
        var v := addresses[i];
        if v.addr !in parses || v.src !in parses {
          return false;
        }
        var ka := FromSaved(version, v, parses, now);
        assert ka.key == Parsed(parses, v.addr) by { KeyOf(version, v, parses, ka); }
        OneMoreLoaded(version, addresses, parses, i, addrIndex, ka);
        addrIndex := addrIndex[ka.key := ka];
        i := i + 1;
      }
      assert addresses[..i] == addresses;
    }

    static lemma KeyOf(version: nat, v: SavedAddress, parses: map<Key, Key>, ka: KnownAddress)
      requires FromAddress(version, v, parses, ka)
      ensures ka.key == Parsed(parses, v.addr)
    {}

    static lemma NothingAsLoaded(version: nat, parses: map<Key, Key>, index: map<Key, KnownAddress>)
      requires index == map[]
      ensures AsLoaded(version, [], parses, index)
    {}

    /** One more saved address replaces what was known under its key. */
    static lemma OneMoreLoaded(version: nat, addresses: seq<SavedAddress>, parses: map<Key, Key>, i: nat, index: map<Key, KnownAddress>, ka: KnownAddress)
      requires i < |addresses| && AsLoaded(version, addresses[..i], parses, index) && FromAddress(version, addresses[i], parses, ka)
      ensures AsLoaded(version, addresses[..i + 1], parses, index[ka.key := ka])
    {
      assert LastFrom(version, addresses[..i + 1], parses, i, ka);
      forall k, j | k in index && k != ka.key && LastFrom(version, addresses[..i], parses, j, index[k])
        ensures LastFrom(version, addresses[..i + 1], parses, j, index[k])
      {}
    }

    /** With texts that parse to themselves, and services in the file, what is known is
        what was saved. */
    lemma AsSaved(version: nat, addresses: seq<SavedAddress>, parses: map<Key, Key>, k: Key)
      requires AsLoaded(version, addresses, parses, addrIndex) && version != 1 && Canonical(addresses, parses) && k in addrIndex
      ensures ToSave(addrIndex[k]) in addresses
    {
      var j :| LastFrom(version, addresses, parses, j, addrIndex[k]);
      assert ToSave(addrIndex[k]) == addresses[j];
    }

    /** Loads one entry of a new bucket. */
    method LoadIntoNew(i: nat, ka: KnownAddress)
      requires Linked() && ka.key in addrIndex && addrIndex[ka.key] == ka && i < addrNew.Length
      modifies this`nNew, this`nTried, addrNew, ka`refs
      ensures Linked() && ka.key in old(TheBook()).entries && i < |old(TheBook()).new_|
      ensures TheBook() == LoadNew(old(TheBook()), i, ka.key)
      ensures nTried == old(nTried)
    {
      hide BucketKeys, ListKeys, Entries, Linked, TheBook;
      EntryOf(ka.key);
      if ka.refs == 0 {
        AddToCounters(1, 0);
      }
      AddRefs(ka, 1);
      PutInBucket(i, ka);
    }

    /** Loads one entry of a tried list. */
    method LoadIntoTried(i: nat, ka: KnownAddress)
      requires Linked() && ka.key in addrIndex && addrIndex[ka.key] == ka && i < addrTried.Length
      modifies this`nNew, this`nTried, addrTried, ka`refs, ka`tried
      ensures Linked() && ka.key in old(TheBook()).entries && i < |old(TheBook()).tried|
      ensures TheBook() == LoadTried(old(TheBook()), i, ka.key)
      ensures nNew == old(nNew) && nTried == old(nTried) + 1
    {
      hide BucketKeys, ListKeys, Entries, Linked, TheBook;
      EntryOf(ka.key);
      LinkedLengths();
      ListEntries(i);
      SetEntry(ka, ka.refs, true);
      AddToCounters(0, 1);
      SetTried(i, addrTried[i] + [ka]);
      assert KeyList(old(addrTried[i]) + [ka]) == old(KeyList(addrTried[i])) + [ka.key];
    }

    /** Loads the new buckets; fails at an address that is not known. */
    method LoadNewBuckets(sam: SavedManager) returns (ok: bool)
      requires Linked() && |sam.newBuckets| == addrNew.Length
      requires Filled(TheBook(), addrIndex.Keys, Part(sam.newBuckets, 0, 0), Part(sam.triedBuckets, 0, 0))
      requires CountedNew(TheBook(), []) && nTried == 0
      modifies this`nNew, this`nTried, addrNew, addrIndex.Values`refs
      ensures Linked()
      ensures ok ==> Filled(TheBook(), addrIndex.Keys, sam.newBuckets, Part(sam.triedBuckets, 0, 0))
      ensures var loaded := KnownPrefix(Flat(sam.newBuckets), addrIndex.Keys);
              nNew == |SetOf(loaded)| && (ok <==> loaded == Flat(sam.newBuckets))
      ensures nTried == 0
    {
      hide Inv, BucketKeys, ListKeys, Linked, Entries, LoadNew, Filled, Part, CountedNew, TheBook, Flat, KnownPrefix;
      ghost var known := addrIndex.Keys;
      ghost var none := Part(sam.triedBuckets, 0, 0);
      var i := 0;
      NoBuckets(sam.newBuckets);
      while i < |sam.newBuckets|
        invariant 0 <= i <= |sam.newBuckets| && Linked() && nTried == 0
        invariant Filled(TheBook(), known, Part(sam.newBuckets, i, 0), none)
        invariant CountedNew(TheBook(), Flat(sam.newBuckets[..i]))
        invariant forall k :: k in Flat(sam.newBuckets[..i]) ==> k in known
      {
        ghost var before := Flat(sam.newBuckets[..i]);
        var j := 0;
        assert before + sam.newBuckets[i][..0] == before;
        while j < |sam.newBuckets[i]|
          invariant 0 <= j <= |sam.newBuckets[i]| && Linked() && nTried == 0
          invariant Filled(TheBook(), known, Part(sam.newBuckets, i, j), none)
          invariant CountedNew(TheBook(), before + sam.newBuckets[i][..j])
          invariant forall k :: k in before + sam.newBuckets[i][..j] ==> k in known
        {
          var val := sam.newBuckets[i][j];
          if val !in addrIndex {
            StopsAtEntry(sam.newBuckets, known, i, j);
            NewCounted(before + sam.newBuckets[i][..j]);
            return false;
          }
          EntryOf(val);
          CountNewStep(TheBook(), before + sam.newBuckets[i][..j], i, val);
          FillNew(TheBook(), known, Part(sam.newBuckets, i, j), none, i, val);
          PartStep(sam.newBuckets, i, j);
          LoadIntoNew(i, addrIndex[val]);
          assert before + sam.newBuckets[i][..j + 1] == before + sam.newBuckets[i][..j] + [val];
          j := j + 1;
        }
        PartNext(sam.newBuckets, i);
        FlatNext(sam.newBuckets, i);
        assert sam.newBuckets[i][..j] == sam.newBuckets[i];
        i := i + 1;
      }
      PartAll(sam.newBuckets);
      assert sam.newBuckets[..i] == sam.newBuckets;
      StopsNowhere(sam.newBuckets, known);
      NewCounted(Flat(sam.newBuckets));
      ok := true;
    }

    static lemma NoBuckets(buckets: seq<seq<Key>>)
      ensures Flat(buckets[..0]) == []
    {}

    lemma NewCounted(loaded: seq<Key>)
      requires CountedNew(TheBook(), loaded)
      ensures nNew == |SetOf(loaded)|
    {}

    lemma EntriesAt(k: Key)
      ensures k in TheBook().entries <==> k in addrIndex
    {}

    /** Loads the tried lists; fails at an address that is not known. */
    method LoadTriedBuckets(sam: SavedManager) returns (ok: bool)
      requires Linked() && |sam.triedBuckets| == addrTried.Length
      requires Filled(TheBook(), addrIndex.Keys, sam.newBuckets, Part(sam.triedBuckets, 0, 0))
      requires nTried == 0
      modifies this`nNew, this`nTried, addrTried, addrIndex.Values`refs, addrIndex.Values`tried
      ensures Linked()
      ensures ok ==> Filled(TheBook(), addrIndex.Keys, sam.newBuckets, sam.triedBuckets)
      ensures var loaded := KnownPrefix(Flat(sam.triedBuckets), addrIndex.Keys);
              nTried == |loaded| && (ok <==> loaded == Flat(sam.triedBuckets))
      ensures nNew == old(nNew)
    {
      hide Inv, BucketKeys, ListKeys, Linked, Entries, LoadTried, Filled, Part, TheBook, Flat, KnownPrefix;
      ghost var known := addrIndex.Keys;
      var i := 0;
      NoBuckets(sam.triedBuckets);
      while i < |sam.triedBuckets|
        invariant 0 <= i <= |sam.triedBuckets| && Linked() && nNew == old(nNew)
        invariant Filled(TheBook(), known, sam.newBuckets, Part(sam.triedBuckets, i, 0))
        invariant nTried == |Flat(sam.triedBuckets[..i])|
        invariant forall k :: k in Flat(sam.triedBuckets[..i]) ==> k in known
      {
        ghost var before := Flat(sam.triedBuckets[..i]);
        var j := 0;
        while j < |sam.triedBuckets[i]|
          invariant 0 <= j <= |sam.triedBuckets[i]| && Linked() && nNew == old(nNew)
          invariant Filled(TheBook(), known, sam.newBuckets, Part(sam.triedBuckets, i, j))
          invariant nTried == |before| + j
          invariant forall k :: k in before + sam.triedBuckets[i][..j] ==> k in known
        {
          var val := sam.triedBuckets[i][j];
          if val !in addrIndex {
            StopsAtEntry(sam.triedBuckets, known, i, j);
            return false;
          }
          EntryOf(val);
          FillTried(TheBook(), known, sam.newBuckets, Part(sam.triedBuckets, i, j), i, val);
          PartStep(sam.triedBuckets, i, j);
          LoadIntoTried(i, addrIndex[val]);
          assert before + sam.triedBuckets[i][..j + 1] == before + sam.triedBuckets[i][..j] + [val];
          j := j + 1;
        }
        PartNext(sam.triedBuckets, i);
        FlatNext(sam.triedBuckets, i);
        assert sam.triedBuckets[i][..j] == sam.triedBuckets[i];
        i := i + 1;
      }
      PartAll(sam.triedBuckets);
      assert sam.triedBuckets[..i] == sam.triedBuckets;
      StopsNowhere(sam.triedBuckets, known);
      ok := true;
    }

    /** No address may be in no bucket, or in a new bucket and in a tried list. */
    method SanityCheck() returns (ok: bool)
      ensures ok <==> forall k :: k in addrIndex ==> (addrIndex[k].refs != 0 || addrIndex[k].tried) && !(addrIndex[k].refs > 0 && addrIndex[k].tried)
    {
      ok := true;
      var todo := addrIndex.Keys;
      while todo != {}
        invariant todo <= addrIndex.Keys
        invariant forall k :: k in addrIndex && k !in todo ==>
                    (addrIndex[k].refs != 0 || addrIndex[k].tried) && !(addrIndex[k].refs > 0 && addrIndex[k].tried)
        decreases todo
      {
        var k :| k in todo;
        var v := addrIndex[k];
        if v.refs == 0 && !v.tried {
          return false;
        }
        if v.refs > 0 && v.tried {
          return false;
        }
        todo := todo - {k};
      }
    }

    /** The buckets hold known addresses only, and each is in buckets of one kind. */
    static ghost predicate PlacesOk(sam: SavedManager, known: set<Key>) {
      && (forall k :: InSome(sam.newBuckets, k) || InSome(sam.triedBuckets, k) ==> k in known)
      && (forall k :: k in known ==> (InSome(sam.newBuckets, k) <==> !InSome(sam.triedBuckets, k)))
    }

    /** A file that the load accepts as it is: not of a later version, with addresses
        that parse to themselves, and holding a book with the invariant. */
    static ghost predicate IsGood(sam: SavedManager, parses: map<Key, Key>, b: Book) {
      && sam.version <= SERIALISATION_VERSION && Holds(sam, b) && Inv(b, {})
      && Canonical(sam.addresses, parses)
    }

    /** What a manager holds after a file was loaded: its addresses as they were saved
        last, the contents of every bucket, and for each address the number of its places
        in new buckets and whether it has one in a tried list. */
    ghost predicate Loaded(sam: SavedManager, parses: map<Key, Key>)
      reads this, addrNew, addrTried, addrIndex.Values
    {
      && Linked() && addrIndex.Keys == KnownKeys(sam, parses)
      && AsLoaded(sam.version, sam.addresses, parses, addrIndex)
      && |sam.newBuckets| == addrNew.Length && |sam.triedBuckets| == addrTried.Length
      && (forall i :: 0 <= i < addrNew.Length ==> addrNew[i].Keys == SetOf(sam.newBuckets[i]))
      && (forall i :: 0 <= i < addrTried.Length ==> KeyList(addrTried[i]) == sam.triedBuckets[i])
      && (forall k :: k in addrIndex ==>
            && addrIndex[k].refs == TriedCount(sam.newBuckets, k)
            && (addrIndex[k].tried <==> InSome(sam.triedBuckets, k)))
      && nNew == |SetOf(Flat(sam.newBuckets))| && nTried == |Flat(sam.triedBuckets)|
    }

    /** Loads a saved file into a new manager.  It succeeds exactly if the file is not of a
        later version, everything parses, the buckets hold only addresses of the file, and
        each of these is in buckets of one kind.  Then everything is as in the file, and
        the manager has its invariant exactly if the file is within the bounds that are
        not checked.  From a file that holds a book, it restores the book. */
    method DeserializePeers(sam: SavedManager, parses: map<Key, Key>, now: int, ghost b: Book) returns (ok: bool)
      requires IsNew() && |sam.newBuckets| == NEW_BUCKET_COUNT && |sam.triedBuckets| == TRIED_BUCKET_COUNT
      modifies this, addrNew, addrTried
      ensures ok <==> Loadable(sam, parses)
      ensures sam.version > 2 ==> !ok
      ensures ok ==> Loaded(sam, parses)
      ensures ok && sam.version == 1 ==> forall k :: k in addrIndex ==> addrIndex[k].services == SF_NODE_NETWORK
      ensures ok ==> (Valid() <==> WithinBounds(sam.newBuckets, sam.triedBuckets))
      ensures IsGood(sam, parses, b) ==> ok && Valid() && TheBook() == b
      ensures nNew == |SetOf(NewLoaded(sam, parses))| && nTried == |TriedLoaded(sam, parses)|
    {
      hide Inv, BucketKeys, ListKeys, Entries, Filled, Part, Holds, Loaded, AsLoaded, WithinBounds, TheBook, Flat, KnownPrefix, InSome, Loadable;
      LoadableFrom(sam, parses);
      if sam.version > SERIALISATION_VERSION {
        return false;
      }
      ok := LoadAddresses(sam.version, sam.addresses, parses, now);
      if !ok {
        return;
      }
      NothingFilled(sam);
      NothingCounted();
      ok := LoadBuckets(sam, parses);
      if ok {
        LoadedAsInFile(sam, parses);
        if sam.version == 1 {
          FirstVersion(sam, parses);
        }
        if IsGood(sam, parses, b) {
          GoodIsLoaded(sam, parses, b);
        }
      } else if IsGood(sam, parses, b) {
        GoodIsLoadable(sam, parses, b);
      }
    }

    /** Fills the buckets for the addresses that are known, and checks the result. */
    method LoadBuckets(sam: SavedManager, ghost parses: map<Key, Key>) returns (ok: bool)
      requires Linked() && |sam.newBuckets| == addrNew.Length && |sam.triedBuckets| == addrTried.Length
      requires Filled(TheBook(), addrIndex.Keys, Part(sam.newBuckets, 0, 0), Part(sam.triedBuckets, 0, 0))
      requires CountedNew(TheBook(), []) && nTried == 0
      modifies this`nNew, this`nTried, addrNew, addrTried, addrIndex.Values`refs, addrIndex.Values`tried
      ensures Linked()
      ensures ok <==> PlacesOk(sam, addrIndex.Keys)
      ensures ok ==> Filled(TheBook(), addrIndex.Keys, sam.newBuckets, sam.triedBuckets)
      ensures ok ==> nNew == |SetOf(Flat(sam.newBuckets))| && nTried == |Flat(sam.triedBuckets)|
      ensures var loaded := KnownPrefix(Flat(sam.newBuckets), addrIndex.Keys);
              && nNew == |SetOf(loaded)|
              && nTried == if loaded == Flat(sam.newBuckets) then |KnownPrefix(Flat(sam.triedBuckets), addrIndex.Keys)| else 0
    {
      hide Inv, BucketKeys, ListKeys, Entries, Filled, Part, Linked, TheBook, CountedNew, SetOf, Flat, KnownPrefix, InSome;
      AllKnown(sam.newBuckets, addrIndex.Keys);
      AllKnown(sam.triedBuckets, addrIndex.Keys);
      ok := LoadNewBuckets(sam);
      if !ok {
        return;
      }
      ok := LoadTriedBuckets(sam);
      if !ok {
        return;
      }
      SanityOfFilled(TheBook(), addrIndex.Keys, sam.newBuckets, sam.triedBuckets);
      forall k | k in addrIndex ensures k in TheBook().entries && TheBook().entries[k] == Entry(addrIndex[k].refs, addrIndex[k].tried) {
        EntryOf(k);
      }
      ok := SanityCheck();
    }

    /** Empties the index and the buckets; the counters stay as they are. */
    method Reset()
      requires addrNew.Length == NEW_BUCKET_COUNT && addrTried.Length == TRIED_BUCKET_COUNT
      modifies this`addrIndex, addrNew, addrTried
      ensures addrIndex == map[] && Linked()
      ensures forall i :: 0 <= i < addrNew.Length ==> addrNew[i] == map[]
      ensures forall i :: 0 <= i < addrTried.Length ==> addrTried[i] == []
    {
      addrIndex := map[];
      forall i | 0 <= i < addrNew.Length {
        addrNew[i] := map[];
      }
      forall i | 0 <= i < addrTried.Length {
        addrTried[i] := [];
      }
    }

    /** An empty manager keeps its invariant exactly if its counters are zero. */
    lemma EmptyIsValid()
      requires addrIndex == map[] && Linked()
      requires forall i :: 0 <= i < addrNew.Length ==> addrNew[i] == map[]
      requires forall i :: 0 <= i < addrTried.Length ==> addrTried[i] == []
      ensures Valid() <==> nNew == 0 && nTried == 0
    {
      hide NewCount, TriedCount;
      assert Keys(Entries(), true) == {} && Keys(Entries(), false) == {};
    }

    /** Loads a saved file into a new manager, and starts with an empty one when that
        fails.  That one is as it should be exactly if nothing was loaded before the
        failure: its counters are those of the entries that were. */
    method LoadPeers(sam: SavedManager, parses: map<Key, Key>, now: int, ghost b: Book) returns (ok: bool)
      requires IsNew() && |sam.newBuckets| == NEW_BUCKET_COUNT && |sam.triedBuckets| == TRIED_BUCKET_COUNT
      modifies this, addrNew, addrTried
      ensures ok <==> Loadable(sam, parses)
      ensures ok ==> Loaded(sam, parses) && (Valid() <==> WithinBounds(sam.newBuckets, sam.triedBuckets))
      ensures IsGood(sam, parses, b) ==> ok && Valid() && TheBook() == b
      ensures !ok ==> addrIndex == map[]
      ensures !ok ==> nNew == |SetOf(NewLoaded(sam, parses))| && nTried == |TriedLoaded(sam, parses)|
      ensures !ok ==>
                var entries := Flat(sam.newBuckets) + Flat(sam.triedBuckets);
                Valid() <==> Refused(sam, parses) || entries == [] || entries[0] !in KnownKeys(sam, parses)
    {
      hide NewLoaded, TriedLoaded, Refused, KnownKeys, AddrManager.Valid, IsGood, TheBook, Flat, Loaded, Loadable, WithinBounds;
      ok := DeserializePeers(sam, parses, now, b);
      if !ok {
        Reset();
        EmptyIsValid();
        LoadsNothing(sam, parses);
        NoneIsEmpty(NewLoaded(sam, parses));
      }
    }

    static lemma NoneIsEmpty(loaded: seq<Key>)
      ensures |SetOf(loaded)| == 0 <==> loaded == []
    {
      if loaded != [] {
        assert loaded[0] in SetOf(loaded);
      }
    }

    /** Saving and loading into a new manager gives the same book, and of every address
        the same source, services and history. */
    method SaveAndLoad(parses: map<Key, Key>, now: int) returns (loaded: AddrManager)
      requires Valid() && forall k :: k in addrIndex ==>
                 k in parses && parses[k] == k && addrIndex[k].src in parses && parses[addrIndex[k].src] == addrIndex[k].src
      ensures fresh(loaded) && loaded.Valid() && loaded.TheBook() == TheBook()
      ensures forall k :: k in addrIndex ==> k in loaded.addrIndex && SameHistory(loaded.addrIndex[k], addrIndex[k])
    {
      hide Inv, BucketKeys, ListKeys, Entries, Holds, TheBook, Loaded, Loadable, WithinBounds, Linked, NewLoaded, TriedLoaded, IsGood;
      NewLength();
      ghost var b := TheBook();
      var sam := SavePeers();
      HeldLists(sam, b);
      SavedIsGood(sam, parses, b);
      loaded := new AddrManager();
      var ok := loaded.DeserializePeers(sam, parses, now, b);
      forall k | k in addrIndex ensures k in loaded.addrIndex && SameHistory(loaded.addrIndex[k], addrIndex[k]) {
        IndexedKeys();
        loaded.IndexedKeys();
        EntryOf(k);
        loaded.Restored(this, sam, parses, k);
      }
    }

    /** The same address with the same source, services and history. */
    static ghost predicate SameHistory(a: KnownAddress, b: KnownAddress)
      reads a, b
    {
      && a.key == b.key && a.src == b.src && a.services == b.services
      && a.attempts == b.attempts && a.lastAttempt == b.lastAttempt && a.lastSuccess == b.lastSuccess
    }

    /** What this manager saves is a good file, if what it knows parses to itself. */
    lemma SavedIsGood(sam: SavedManager, parses: map<Key, Key>, b: Book)
      requires Holds(sam, b) && Inv(b, {}) && sam.version == SERIALISATION_VERSION
      requires forall i :: 0 <= i < |sam.addresses| ==>
                 sam.addresses[i].addr in addrIndex && sam.addresses[i] == ToSave(addrIndex[sam.addresses[i].addr])
      requires forall k :: k in addrIndex ==>
                 k in parses && parses[k] == k && addrIndex[k].src in parses && parses[addrIndex[k].src] == addrIndex[k].src
      ensures IsGood(sam, parses, b)
    {
      hide Holds, Inv;
    }

    /** An address in this manager, loaded from a file, is as in the manager that saved it. */
    lemma Restored(from: AddrManager, sam: SavedManager, parses: map<Key, Key>, k: Key)
      requires Loaded(sam, parses) && k in addrIndex && k in from.addrIndex && from.addrIndex[k].key == k
      requires sam.version == SERIALISATION_VERSION && Canonical(sam.addresses, parses)
      requires forall i :: 0 <= i < |sam.addresses| ==>
                 sam.addresses[i].addr in from.addrIndex && sam.addresses[i] == ToSave(from.addrIndex[sam.addresses[i].addr])
      ensures SameHistory(addrIndex[k], from.addrIndex[k])
    {
      hide Linked, KnownKeys, Flat, TriedCount, InSome;
      AsSaved(sam.version, sam.addresses, parses, k);
      var i :| 0 <= i < |sam.addresses| && sam.addresses[i] == ToSave(addrIndex[k]);
      assert addrIndex[k].key == k;
    }

    lemma HeldLists(sam: SavedManager, b: Book)
      requires Holds(sam, b)
      ensures sam.triedBuckets == b.tried && |sam.newBuckets| == |b.new_|
    {}

    static lemma KnownAsSaved(sam: SavedManager, parses: map<Key, Key>, k: Key)
      requires Canonical(sam.addresses, parses)
      ensures k in KnownKeys(sam, parses) <==> exists i :: 0 <= i < |sam.addresses| && sam.addresses[i].addr == k
    {
      forall i | 0 <= i < |sam.addresses| ensures Parsed(parses, sam.addresses[i].addr) == sam.addresses[i].addr {}
    }

    /** Nothing is counted before the buckets are loaded. */
    lemma NothingCounted()
      requires nNew == 0 && forall k :: k in addrIndex ==> addrIndex[k].refs == 0
      ensures CountedNew(TheBook(), [])
    {
      assert Referenced(TheBook().entries) == {} == SetOf([]);
    }

    /** Addresses of a file of the first version get the services of a full node. */
    lemma FirstVersion(sam: SavedManager, parses: map<Key, Key>)
      requires AsLoaded(sam.version, sam.addresses, parses, addrIndex) && sam.version == 1
      ensures forall k :: k in addrIndex ==> addrIndex[k].services == SF_NODE_NETWORK
    {}

    lemma NothingFilled(sam: SavedManager)
      requires Linked() && |sam.newBuckets| == addrNew.Length && |sam.triedBuckets| == addrTried.Length
      requires forall i :: 0 <= i < addrNew.Length ==> addrNew[i] == map[]
      requires forall i :: 0 <= i < addrTried.Length ==> addrTried[i] == []
      requires forall k :: k in addrIndex ==> addrIndex[k].refs == 0 && !addrIndex[k].tried
      ensures Filled(TheBook(), addrIndex.Keys, Part(sam.newBuckets, 0, 0), Part(sam.triedBuckets, 0, 0))
    {
      hide Linked, TriedCount, Part;
      LinkedLengths();
      PartAll(sam.newBuckets);
      PartAll(sam.triedBuckets);
      var s, n, t := TheBook(), Part(sam.newBuckets, 0, 0), Part(sam.triedBuckets, 0, 0);
      forall k | k in addrIndex ensures TriedCount(n, k) == 0 && TriedCount(t, k) == 0 {
        TriedCountZero(n, k);
        TriedCountZero(t, k);
      }
      assert s.tried == t;
    }

    lemma LoadedAsInFile(sam: SavedManager, parses: map<Key, Key>)
      requires Linked() && addrIndex.Keys == KnownKeys(sam, parses) && AsLoaded(sam.version, sam.addresses, parses, addrIndex)
      requires |sam.newBuckets| == addrNew.Length && |sam.triedBuckets| == addrTried.Length
      requires Filled(TheBook(), addrIndex.Keys, sam.newBuckets, sam.triedBuckets) && PlacesOk(sam, addrIndex.Keys)
      requires nNew == |SetOf(Flat(sam.newBuckets))| && nTried == |Flat(sam.triedBuckets)|
      ensures Loaded(sam, parses) && (Valid() <==> WithinBounds(sam.newBuckets, sam.triedBuckets))
    {
      hide AsLoaded, Linked, TriedCount, Flat, Inv, InSome, KnownKeys, SetOf;
      LinkedLengths();
      LoadedIsValid(TheBook(), addrIndex.Keys, sam.newBuckets, sam.triedBuckets);
      forall k | k in addrIndex
        ensures addrIndex[k].refs == TriedCount(sam.newBuckets, k) && (addrIndex[k].tried <==> InSome(sam.triedBuckets, k))
      {
        EntryOf(k);
        InSomeCount(sam.triedBuckets, k);
      }
    }

    /** A good file is loaded as the book that it holds. */
    lemma GoodIsLoaded(sam: SavedManager, parses: map<Key, Key>, b: Book)
      requires IsGood(sam, parses, b) && addrIndex.Keys == KnownKeys(sam, parses)
      requires Filled(TheBook(), addrIndex.Keys, sam.newBuckets, sam.triedBuckets)
      requires nNew == |SetOf(Flat(sam.newBuckets))| && nTried == |Flat(sam.triedBuckets)|
      ensures TheBook() == b && WithinBounds(sam.newBuckets, sam.triedBuckets)
    {
      hide Linked, TriedCount, Flat, Inv, InSome, WithinBounds;
      KnownAsHeld(sam, parses, b);
      HeldIsLoaded(TheBook(), b, sam);
      HeldIsLoadable(b, sam);
    }

    static lemma KnownAsHeld(sam: SavedManager, parses: map<Key, Key>, b: Book)
      requires IsGood(sam, parses, b)
      ensures KnownKeys(sam, parses) == b.entries.Keys
    {
      forall k ensures k in KnownKeys(sam, parses) <==> k in b.entries {
        KnownAsSaved(sam, parses, k);
      }
    }

    static lemma GoodIsLoadable(sam: SavedManager, parses: map<Key, Key>, b: Book)
      requires IsGood(sam, parses, b)
      ensures Loadable(sam, parses)
    {
      hide InSome, WithinBounds, KnownKeys, Inv;
      KnownAsHeld(sam, parses, b);
      HeldIsLoadable(b, sam);
    }

    /** Which files are loadable, by the addresses that are known. */
    static lemma LoadableFrom(sam: SavedManager, parses: map<Key, Key>)
      ensures Loadable(sam, parses) <==> !Refused(sam, parses) && PlacesOk(sam, KnownKeys(sam, parses))
    {}
  }

  /** Different addresses for different numbers. */
  function NthKey(i: nat): (key: Key)
    ensures |key.text| == i
  {
    Key(seq(i, _ => '1'))
  }

  /** A new bucket over its size: 65 different addresses that all hash to it are added to
      a new manager. */
  method HoldsOneTooMany() returns (a: AddrManager)
    ensures a.Valid() && a.addrNew.Length > 0 && |a.addrNew[0]| == 65
  {
    hide AddrManager.Valid, Short, FirstSize;
    a := Start();
    var i := 0;
    while i < NEW_BUCKET_SIZE + 1
      invariant i <= NEW_BUCKET_SIZE + 1 && a.Valid() && a.addrNew.Length > 0 && FirstSize(a) == i
      invariant fresh(a) && fresh(a.addrNew) && fresh(a.addrIndex.Values)
      invariant Short(a.addrIndex.Keys, i)
    {
      NthIsNew(a.addrIndex.Keys, i);
      AddNew(a, NthKey(i));
      i := i + 1;
    }
    FirstSizeIs(a);
  }

  ghost function FirstSize(a: AddrManager): nat
    requires a.addrNew.Length > 0
    reads a, a.addrNew
  {
    |a.addrNew[0]|
  }

  lemma FirstSizeIs(a: AddrManager)
    requires a.addrNew.Length > 0
    ensures FirstSize(a) == |a.addrNew[0]|
  {}

  method Start() returns (a: AddrManager)
    ensures a.Valid() && a.addrNew.Length > 0 && FirstSize(a) == 0 && Short(a.addrIndex.Keys, 0)
    ensures fresh(a) && fresh(a.addrNew) && fresh(a.addrIndex.Values)
  {
    hide AddrManager.Valid;
    a := new AddrManager();
    a.HasBuckets();
  }

  ghost predicate Short(keys: set<Key>, i: nat) {
    forall k :: k in keys ==> |k.text| < i
  }

  lemma NthIsNew(keys: set<Key>, i: nat)
    requires Short(keys, i)
    ensures NthKey(i) !in keys && Short(keys + {NthKey(i)}, i + 1)
  {}

  method AddNew(a: AddrManager, key: Key)
    requires a.Valid() && key !in a.addrIndex && a.addrNew.Length > 0 && FirstSize(a) <= NEW_BUCKET_SIZE
    modifies a, a.addrNew, a.addrIndex.Values
    ensures a.Valid() && fresh(a.addrIndex.Values - old(a.addrIndex.Values))
    ensures a.addrIndex.Keys == old(a.addrIndex.Keys) + {key} && FirstSize(a) == old(FirstSize(a)) + 1
  {
    hide Inv, BucketKeys, ListKeys, AddrManager.Linked, AddrManager.Entries, AddrManager.TheBook, AddrManager.GoesOverSize;
    ghost var before := a.TheBook();
    a.NewLength();
    a.IndexedKeys();
    a.BucketKeysAt(0);
    a.NotInIndex(0, key);
    ghost var added, dropped := a.UpdateAddress(key, key, 0, {}, true, 0, 0, {});
    AddedWhole(before, a.TheBook(), key, dropped, a);
    a.NewLength();
    a.IndexedKeys();
    a.BucketKeysAt(0);
  }

  lemma AddedWhole(before: Book, after: Book, key: Key, dropped: seq<Key>, a: AddrManager)
    requires |before.new_| > 0 && |before.new_[0]| <= NEW_BUCKET_SIZE && key !in before.new_[0]
    requires after == a.AddedTo(WithEntry(before, key), 0, key, dropped)
    ensures after.entries.Keys == before.entries.Keys + {key}
    ensures |after.new_| == |before.new_| && |after.new_[0]| == |before.new_[0]| + 1
  {}
}
