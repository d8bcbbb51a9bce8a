/** The auto-purging image cache: a dictionary with a running byte total, updated by barrier blocks. */
module ImageCache {

  type Image = int
  type Time = int

  datatype CachedImage = CachedImage(image: Image, identifier: string, totalBytes: nat, lastAccessDate: Time)

  type Images = map<string, CachedImage>

  // ---- sums over the dictionary -----------------------------------------------------------------

  ghost function TotalBytes(m: Images): nat
    decreases |m|
  {
    if m == map[] then 0
    else
      var k :| k in m;
      m[k].totalBytes + TotalBytes(m - {k})
  }

  /** The total does not depend on the order of summation. */
  lemma {:induction false} TotalWithout(m: Images, k: string)
    requires k in m
    ensures TotalBytes(m) == m[k].totalBytes + TotalBytes(m - {k})
    decreases |m|
  {
    var c :| c in m && TotalBytes(m) == m[c].totalBytes + TotalBytes(m - {c});
    if c != k {
      TotalWithout(m - {c}, k);
      assert m - {c} - {k} == m - {k} - {c};
      TotalWithout(m - {k}, c);
    }
  }

  lemma TotalUpdate(m: Images, k: string, v: CachedImage)
    ensures TotalBytes(m[k := v]) == TotalBytes(m) + v.totalBytes - if k in m then m[k].totalBytes else 0
  {
    TotalWithout(m[k := v], k);
    assert m[k := v] - {k} == m - {k};
    if k in m {
      TotalWithout(m, k);
    } else {
      assert m - {k} == m;
    }
  }

  function SumBytes(xs: seq<CachedImage>): nat {
    if xs == [] then 0 else xs[0].totalBytes + SumBytes(xs[1..])
  }

  function Identifiers(xs: seq<CachedImage>): set<string> {
    set x | x in xs :: x.identifier
  }

  /** The entries of the dictionary, each once, least recently accessed first: any order that a sort by
      access date may return. */
  ghost predicate AccessOrder(order: seq<CachedImage>, m: Images) {
    && (forall x :: x in order <==> x.identifier in m && m[x.identifier] == x)
    && (forall i, j :: 0 <= i < j < |order| ==> order[i].identifier != order[j].identifier)
    && (forall i, j :: 0 <= i < j < |order| ==> order[i].lastAccessDate <= order[j].lastAccessDate)
  }

  ghost predicate Keyed(m: Images) {
    forall k :: k in m ==> m[k].identifier == k
  }

  lemma {:induction false} OrderTotal(order: seq<CachedImage>, m: Images)
    requires AccessOrder(order, m) && Keyed(m)
    ensures TotalBytes(m) == SumBytes(order)
    decreases |order|
  {
    if order == [] {
      assert m == map[];
    } else {
      var first := order[0];
      assert first in order;
      TotalWithout(m, first.identifier);
      RestOrdered(order, m);
      OrderTotal(order[1..], m - {first.identifier});
    }
  }

  lemma InTail(order: seq<CachedImage>, x: CachedImage)
    requires order != []
    ensures x in order <==> x == order[0] || x in order[1..]
  {
    assert order == [order[0]] + order[1..];
  }

  lemma RestMember(order: seq<CachedImage>, m: Images, x: CachedImage)
    requires AccessOrder(order, m) && order != []
    ensures x in order[1..] <==> x.identifier in m - {order[0].identifier} && m[x.identifier] == x
  {
    InTail(order, x);
    if x in order[1..] {
      var i :| 0 <= i < |order| - 1 && order[1..][i] == x;
      assert order[i + 1].identifier != order[0].identifier;
    }
  }

  lemma RestOrdered(order: seq<CachedImage>, m: Images)
    requires AccessOrder(order, m) && Keyed(m) && order != []
    ensures AccessOrder(order[1..], m - {order[0].identifier}) && Keyed(m - {order[0].identifier})
  {
    var rest, m' := order[1..], m - {order[0].identifier};
    forall x: CachedImage ensures x in rest <==> x.identifier in m' && m'[x.identifier] == x {
      RestMember(order, m, x);
    }
    assert forall i, j :: 0 <= i < j < |rest| ==> rest[i] == order[i + 1] && rest[j] == order[j + 1];
  }

  lemma {:induction false} OldestEntry(m: Images) returns (k: string)
    requires m != map[]
    ensures k in m && forall k' :: k' in m ==> m[k].lastAccessDate <= m[k'].lastAccessDate
    decreases |m|
  {
    var first :| first in m;
    var rest := m - {first};
    assert forall x :: x in m ==> x == first || x in rest;
    k := first;
    if rest != map[] {
      var oldest := OldestEntry(rest);
      if m[oldest].lastAccessDate < m[first].lastAccessDate {
        k := oldest;
      }
      assert forall x :: x in rest ==> rest[oldest].lastAccessDate <= rest[x].lastAccessDate;
    }
  }

  lemma OldestFirst(m: Images, k: string, rest: seq<CachedImage>)
    requires Keyed(m) && k in m && AccessOrder(rest, m - {k})
    requires forall k' :: k' in m ==> m[k].lastAccessDate <= m[k'].lastAccessDate
    ensures AccessOrder([m[k]] + rest, m)
  {
    var order := [m[k]] + rest;
    forall x: CachedImage ensures x in order <==> x.identifier in m && m[x.identifier] == x {
      assert x in order <==> x == m[k] || x in rest;
    }
    forall i | 0 < i < |order| ensures order[i].identifier != k && order[0].lastAccessDate <= order[i].lastAccessDate {
      assert rest[i - 1] in rest;
    }
  }

  /** Every dictionary has such an order. */
  lemma {:induction false} OrderExists(m: Images) returns (order: seq<CachedImage>)
    requires Keyed(m)
    ensures AccessOrder(order, m)
    decreases |m|
  {
    if m == map[] {
      order := [];
    } else {
      hide AccessOrder;
      var k := OldestEntry(m);
      var rest := OrderExists(m - {k});
      OldestFirst(m, k, rest);
      order := [m[k]] + rest;
    }
  }

  // ---- the barrier queue ---------------------------------------------------------------------------

  /** `add` dispatches an insert block and then, separately, a purge block. */
  datatype Block = Insert(image: Image, identifier: string, totalBytes: nat) | Purge

  function Inserts(queue: seq<Block>): nat {
    if queue == [] then 0 else (if queue[0].Insert? then 1 else 0) + Inserts(queue[1..])
  }

  function Purges(queue: seq<Block>): nat {
    if queue == [] then 0 else (if queue[0].Purge? then 1 else 0) + Purges(queue[1..])
  }

  lemma {:induction false} CountsAppend(queue: seq<Block>, b: Block)
    ensures Inserts(queue + [b]) == Inserts(queue) + if b.Insert? then 1 else 0
    ensures Purges(queue + [b]) == Purges(queue) + if b.Purge? then 1 else 0
  {
    if queue == [] {
      assert queue + [b] == [b];
    } else {
      assert (queue + [b])[1..] == queue[1..] + [b];
      CountsAppend(queue[1..], b);
    }
  }

  /** Every queued insert still has its own purge ahead of it: queued behind it, or about to be. */
  ghost predicate PurgesFollow(queue: seq<Block>, dispatching: nat) {
    forall p :: 0 <= p <= |queue| ==> Inserts(queue[p..]) <= Purges(queue[p..]) + dispatching
  }

  lemma FollowAppend(queue: seq<Block>, b: Block, dispatching: nat, dispatching': nat)
    requires PurgesFollow(queue, dispatching)
    requires if b.Insert? then dispatching' == dispatching + 1 else dispatching == dispatching' + 1
    ensures PurgesFollow(queue + [b], dispatching')
  {
    forall p | 0 <= p <= |queue| + 1
      ensures Inserts((queue + [b])[p..]) <= Purges((queue + [b])[p..]) + dispatching'
    {
      if p <= |queue| {
        assert (queue + [b])[p..] == queue[p..] + [b];
        CountsAppend(queue[p..], b);
      } else {
        assert (queue + [b])[p..] == [];
      }
    }
  }

  lemma FollowTail(queue: seq<Block>, dispatching: nat)
    requires PurgesFollow(queue, dispatching) && queue != []
    ensures PurgesFollow(queue[1..], dispatching)
    ensures queue[0].Insert? ==> Purges(queue[1..]) + dispatching > 0
  {
    assert queue[0..] == queue;
    forall p | 0 <= p <= |queue[1..]|
      ensures Inserts(queue[1..][p..]) <= Purges(queue[1..][p..]) + dispatching
    {
      assert queue[1..][p..] == queue[p + 1..];
    }
  }

  class AutoPurgingImageCache {
    const memoryCapacity: nat
    const preferredMemoryUsageAfterPurge: nat
    var cachedImages: Images
    var currentMemoryUsage: nat
    /** Blocks waiting on the synchronization queue, and calls of `add` between their two dispatches. */
    var queue: seq<Block>
    var dispatching: nat

    /** Usage is exact, keys are identifiers, and usage over capacity always has a purge coming. */
    ghost predicate Valid()
      reads this
    {
      && preferredMemoryUsageAfterPurge <= memoryCapacity
      && Keyed(cachedImages)
      && currentMemoryUsage == TotalBytes(cachedImages)
      && PurgesFollow(queue, dispatching)
      && (currentMemoryUsage > memoryCapacity ==> Purges(queue) + dispatching > 0)
    }

    constructor (memoryCapacity: nat, preferredMemoryUsageAfterPurge: nat)
      requires memoryCapacity >= preferredMemoryUsageAfterPurge
      ensures Valid() && cachedImages == map[] && currentMemoryUsage == 0 && queue == [] && dispatching == 0
    {
      this.memoryCapacity := memoryCapacity;
      this.preferredMemoryUsageAfterPurge := preferredMemoryUsageAfterPurge;
      cachedImages := map[];
      currentMemoryUsage := 0;
      queue, dispatching := [], 0;
    }

    // ---- add ------------------------------------------------------------------------------------

    method DispatchInsert(image: Image, identifier: string, totalBytes: nat)
      requires Valid()
      modifies this
      ensures Valid()
      ensures queue == old(queue) + [Insert(image, identifier, totalBytes)] && dispatching == old(dispatching) + 1
      ensures cachedImages == old(cachedImages) && currentMemoryUsage == old(currentMemoryUsage)
    {
      FollowAppend(queue, Insert(image, identifier, totalBytes), dispatching, dispatching + 1);
      CountsAppend(queue, Insert(image, identifier, totalBytes));
      queue := queue + [Insert(image, identifier, totalBytes)];
      dispatching := dispatching + 1;
    }

    method DispatchPurge()
      requires Valid() && dispatching > 0
      modifies this
      ensures Valid()
      ensures queue == old(queue) + [Purge] && dispatching == old(dispatching) - 1
      ensures cachedImages == old(cachedImages) && currentMemoryUsage == old(currentMemoryUsage)
    {
      FollowAppend(queue, Purge, dispatching, dispatching - 1);
      CountsAppend(queue, Purge);
      queue := queue + [Purge];
      dispatching := dispatching - 1;
    }

    /** The insert block: replaces an entry of that identifier, if any. */
    method RunInsert(now: Time)
      requires Valid() && queue != [] && queue[0].Insert?
      modifies this
      ensures Valid() && queue == old(queue)[1..] && dispatching == old(dispatching)
      ensures var b := old(queue)[0];
              cachedImages == old(cachedImages)[b.identifier := CachedImage(b.image, b.identifier, b.totalBytes, now)]
      ensures var b, m := old(queue)[0], old(cachedImages);
              currentMemoryUsage
                == old(currentMemoryUsage) + b.totalBytes - if b.identifier in m then m[b.identifier].totalBytes else 0
    {
      var b := queue[0];
      FollowTail(queue, dispatching);
      queue := queue[1..];
      var cachedImage := CachedImage(b.image, b.identifier, b.totalBytes, now);
      TotalUpdate(cachedImages, b.identifier, cachedImage);
      if b.identifier in cachedImages {
        TotalWithout(cachedImages, b.identifier);
        currentMemoryUsage := currentMemoryUsage - cachedImages[b.identifier].totalBytes;
      }
      cachedImages := cachedImages[b.identifier := cachedImage];
      currentMemoryUsage := currentMemoryUsage + cachedImage.totalBytes;
    }

    /** Evicts in the given order until enough bytes are gone. */
    method Evict(order: seq<CachedImage>, bytesToPurge: nat) returns (evicted: nat, bytesPurged: nat)
      requires AccessOrder(order, cachedImages) && Keyed(cachedImages) && bytesToPurge > 0
      modifies this`cachedImages
      ensures evicted <= |order| && cachedImages == old(cachedImages) - Identifiers(order[..evicted])
      ensures Keyed(cachedImages) && TotalBytes(cachedImages) + bytesPurged == old(TotalBytes(cachedImages))
      ensures bytesPurged == SumBytes(order[..evicted])
      ensures bytesPurged < bytesToPurge ==> evicted == |order|
      ensures evicted > 0 ==> SumBytes(order[..evicted - 1]) < bytesToPurge
    {
      hide TotalBytes, SumBytes, Identifiers, AccessOrder;
      ghost var before := cachedImages;
      evicted, bytesPurged := 0, 0;
      NothingEvicted(order, before);
      while evicted < |order|
        invariant evicted <= |order|
        invariant cachedImages == before - Identifiers(order[..evicted]) && Keyed(cachedImages)
        invariant bytesPurged == SumBytes(order[..evicted])
        invariant TotalBytes(cachedImages) + bytesPurged == TotalBytes(before)
        invariant bytesPurged < bytesToPurge
        invariant evicted > 0 ==> SumBytes(order[..evicted - 1]) < bytesToPurge
      {
        var cachedImage := order[evicted];
        StillThere(order, before, evicted);
        TotalWithout(cachedImages, cachedImage.identifier);
        OneMore(order, before, evicted);
        cachedImages := cachedImages - {cachedImage.identifier};
        bytesPurged := bytesPurged + cachedImage.totalBytes;
        evicted := evicted + 1;
        if bytesPurged >= bytesToPurge {
          break;
        }
      }
    }

    /** The purge block, on the entries in the order the sort returned. Over capacity it evicts the
        shortest least-recently-accessed prefix that brings usage down to the preferred level;
        otherwise it changes nothing. */
    method RunPurge(order: seq<CachedImage>) returns (evicted: nat)
      requires Valid() && queue != [] && queue[0].Purge?
      requires AccessOrder(order, cachedImages)
      modifies this
      ensures Valid() && queue == old(queue)[1..] && dispatching == old(dispatching)
      ensures evicted <= |order| && cachedImages == old(cachedImages) - Identifiers(order[..evicted])
      ensures currentMemoryUsage == old(currentMemoryUsage) - SumBytes(order[..evicted])
      ensures old(currentMemoryUsage) <= memoryCapacity ==> evicted == 0
      ensures old(currentMemoryUsage) > memoryCapacity ==>
                && evicted > 0
                && currentMemoryUsage <= preferredMemoryUsageAfterPurge
                && old(currentMemoryUsage) - SumBytes(order[..evicted - 1]) > preferredMemoryUsageAfterPurge
      ensures forall x, y :: x in order[..evicted] && y in order[evicted..] ==> x.lastAccessDate <= y.lastAccessDate
      ensures currentMemoryUsage <= memoryCapacity
    {
      hide TotalBytes, SumBytes, Identifiers, AccessOrder, PurgesFollow, Purges;
      evicted := 0;
      FollowTail(queue, dispatching);
      CountsHead(queue);
      queue := queue[1..];
      OrderTotal(order, cachedImages);
      NothingEvicted(order, cachedImages);
      if currentMemoryUsage > memoryCapacity {
        var bytesPurged;
        evicted, bytesPurged := Evict(order, currentMemoryUsage - preferredMemoryUsageAfterPurge);
        assert order[..|order|] == order;
        currentMemoryUsage := currentMemoryUsage - bytesPurged;
      }
      EarlierAreOlder(order, old(cachedImages), evicted);
    }

    // ---- remove and access ----------------------------------------------------------------------

    method RemoveImage(identifier: string) returns (removed: bool)
      requires Valid()
      modifies this
      ensures Valid() && queue == old(queue) && dispatching == old(dispatching)
      ensures removed == (identifier in old(cachedImages)) && cachedImages == old(cachedImages) - {identifier}
      ensures currentMemoryUsage
           == old(currentMemoryUsage) - if removed then old(cachedImages)[identifier].totalBytes else 0
    {
      removed := identifier in cachedImages;
      if removed {
        TotalWithout(cachedImages, identifier);
        currentMemoryUsage := currentMemoryUsage - cachedImages[identifier].totalBytes;
        cachedImages := cachedImages - {identifier};
      }
      assert identifier !in old(cachedImages) ==> old(cachedImages) - {identifier} == old(cachedImages);
    }

    /** Removes every entry whose key starts with the request's key. */
    method RemoveImages(prefix: string) returns (removed: bool)
      requires Valid()
      modifies this
      ensures Valid() && queue == old(queue) && dispatching == old(dispatching)
      ensures cachedImages == map k | k in old(cachedImages) && !(prefix <= k) :: old(cachedImages)[k]
      ensures removed == exists k :: k in old(cachedImages) && prefix <= k
    {
      removed := false;
      var keys := set k | k in cachedImages && prefix <= k;
      ghost var all := keys;
      while keys != {}
        invariant keys <= all
        invariant preferredMemoryUsageAfterPurge <= memoryCapacity
        invariant queue == old(queue) && dispatching == old(dispatching)
        invariant Keyed(cachedImages) && currentMemoryUsage == TotalBytes(cachedImages)
        invariant currentMemoryUsage <= old(currentMemoryUsage)
        invariant cachedImages == old(cachedImages) - (all - keys)
        invariant removed <==> keys != all
        decreases keys
      {
        var key :| key in keys;
        assert key in all && key in cachedImages;
        TotalWithout(cachedImages, key);
        currentMemoryUsage := currentMemoryUsage - cachedImages[key].totalBytes;
        cachedImages := cachedImages - {key};
        removed := true;
        keys := keys - {key};
        assert cachedImages == old(cachedImages) - (all - keys);
      }
      assert all - keys == all;
      assert forall k :: k in cachedImages <==> k in old(cachedImages) && !(prefix <= k);
    }

    method RemoveAllImages() returns (removed: bool)
      requires Valid()
      modifies this
      ensures Valid() && queue == old(queue) && dispatching == old(dispatching)
      ensures removed == (old(cachedImages) != map[]) && cachedImages == map[]
    {
      removed := cachedImages != map[];
      if removed {
        cachedImages := map[];
        currentMemoryUsage := 0;
      }
    }

    /** A hit refreshes the access date of the entry and nothing else. */
    method GetImage(identifier: string, now: Time) returns (image: Image, found: bool)
      requires Valid()
      modifies this
      ensures Valid() && queue == old(queue) && dispatching == old(dispatching)
      ensures currentMemoryUsage == old(currentMemoryUsage)
      ensures found == (identifier in old(cachedImages))
      ensures found ==> image == old(cachedImages)[identifier].image
      ensures var before := old(cachedImages);
              cachedImages
                == if found then before[identifier := before[identifier].(lastAccessDate := now)] else before
    {
      image, found := 0, identifier in cachedImages;
      if found {
        var cachedImage := cachedImages[identifier].(lastAccessDate := now);
        TotalUpdate(cachedImages, identifier, cachedImage);
        image := cachedImage.image;
        cachedImages := cachedImages[identifier := cachedImage];
      }
    }
  }

  lemma StillThere(order: seq<CachedImage>, m: Images, i: nat)
    requires AccessOrder(order, m) && i < |order|
    ensures var m' := m - Identifiers(order[..i]);
            order[i].identifier in m' && m'[order[i].identifier] == order[i]
  {
    assert order[i] in order;
    forall x | x in order[..i] ensures x.identifier != order[i].identifier {
      var j :| 0 <= j < i && order[..i][j] == x;
      assert order[j] == x;
    }
  }

  lemma OneMore(order: seq<CachedImage>, m: Images, i: nat)
    requires i < |order|
    ensures m - Identifiers(order[..i]) - {order[i].identifier} == m - Identifiers(order[..i + 1])
    ensures SumBytes(order[..i + 1]) == SumBytes(order[..i]) + order[i].totalBytes
  {
    assert order[..i + 1] == order[..i] + [order[i]];
    assert Identifiers(order[..i + 1]) == Identifiers(order[..i]) + {order[i].identifier} by {
      forall k | k in Identifiers(order[..i]) + {order[i].identifier} ensures k in Identifiers(order[..i + 1]) {
        if k in Identifiers(order[..i]) {
          var x :| x in order[..i] && x.identifier == k;
          assert x in order[..i + 1];
        } else {
          assert order[i] in order[..i + 1];
        }
      }
    }
    SumAppend(order[..i], order[i]);
  }

  lemma {:induction false} SumAppend(xs: seq<CachedImage>, x: CachedImage)
    ensures SumBytes(xs + [x]) == SumBytes(xs) + x.totalBytes
  {
    if xs == [] {
      assert xs + [x] == [x];
    } else {
      assert (xs + [x])[1..] == xs[1..] + [x];
      SumAppend(xs[1..], x);
    }
  }

  lemma EarlierAreOlder(order: seq<CachedImage>, m: Images, n: nat)
    requires AccessOrder(order, m) && n <= |order|
    ensures forall x, y :: x in order[..n] && y in order[n..] ==> x.lastAccessDate <= y.lastAccessDate
  {
    forall x, y | x in order[..n] && y in order[n..] ensures x.lastAccessDate <= y.lastAccessDate {
      var i :| 0 <= i < n && order[..n][i] == x;
      var j :| 0 <= j < |order| - n && order[n..][j] == y;
      assert order[i] == x && order[n + j] == y;
    }
  }

  lemma NothingEvicted(order: seq<CachedImage>, m: Images)
    ensures m - Identifiers(order[..0]) == m && SumBytes(order[..0]) == 0
  {
    assert Identifiers(order[..0]) == {};
  }

  lemma CountsHead(queue: seq<Block>)
    requires queue != []
    ensures Purges(queue) == Purges(queue[1..]) + if queue[0].Purge? then 1 else 0
  {
  }
}
