/**
 * The tile-store handler chain of a GEGL buffer (GeglHandlers).
 *
 * A chain is an ordered list of handlers wrapped around the buffer's own
 * source store.  Requests enter at the head; every handler forwards to its
 * `source`, which the chain keeps equal to the next handler, and the tail
 * forwards to the chain's own source.  On disposal every cache handler is
 * released first, one at a time and while still bound to a living
 * downstream store, so that it can flush its unwritten tiles there.
 *
 * Handler objects are identified by value.  Releasing a handler (dropping
 * the chain's reference to it) is recorded as an event in an append-only log
 * together with the store the handler was bound to at that moment, which is
 * where a cache handler flushes its tiles.
 */
module HandlerChain {

  import opened Options

  /**
   * Handler types: every handler is an instance of HandlerBase; below it
   * there is CacheHandler and any number of other handler types.
   */
  datatype HandlerType = HandlerBase | CacheHandler | OtherHandler(tag: nat)

  /**
   * A handler object: its identity and the types its class is or derives
   * from below HandlerBase, so that a subclass of the cache handler is a
   * cache too.
   */
  datatype Handler = Handler(id: nat, ancestry: set<HandlerType>)

  /** A tile store: a handler, or a store outside the chain (a swap backend, a generator, another buffer). */
  datatype Store = HandlerStore(h: Handler) | OtherStore(id: nat)

  /** The type check of a handler against a type, with HandlerBase as the common supertype. */
  predicate IsInstanceOf(h: Handler, t: HandlerType)
  {
    t == HandlerBase || t in h.ancestry
  }

  predicate IsCache(h: Handler)
  {
    IsInstanceOf(h, CacheHandler)
  }

  /**
   * The handler at position i of s.  Distinctness is stated through it so
   * that its pairwise quantifier is instantiated only where a proof names
   * the positions it compares.
   */
  function At(s: seq<Handler>, i: nat): Handler
    requires i < |s|
  {
    s[i]
  }

  /** No handler occurs twice in s. */
  predicate Distinct(s: seq<Handler>)
  {
    forall i, j :: 0 <= i < j < |s| ==> At(s, i) != At(s, j)
  }

  /** A distinct list without its head is distinct and does not hold the head. */
  lemma DistinctTail(s: seq<Handler>)
    requires Distinct(s) && s != []
    ensures s[0] !in s[1..] && Distinct(s[1..])
  {
    var t := s[1..];
    forall j | 0 <= j < |t| ensures t[j] != s[0] {
      assert At(s, 0) != At(s, j + 1);
    }
    forall i, j | 0 <= i < j < |t| ensures At(t, i) != At(t, j) {
      assert At(s, i + 1) != At(s, j + 1);
    }
  }

  /** Putting a handler in front of a distinct list that lacks it keeps it distinct. */
  lemma DistinctCons(h: Handler, t: seq<Handler>)
    requires h !in t && Distinct(t)
    ensures Distinct([h] + t)
  {
    var s := [h] + t;
    forall i, j | 0 <= i < j < |s| ensures At(s, i) != At(s, j) {
      if i == 0 {
        assert At(s, j) == t[j - 1];
      } else {
        assert At(t, i - 1) != At(t, j - 1);
      }
    }
  }

  /** The store that the handler at position i must forward to. */
  function Downstream(s: seq<Handler>, origin: Option<Store>, i: nat): Option<Store>
    requires i < |s|
  {
    if i + 1 < |s| then Some(HandlerStore(s[i + 1])) else origin
  }

  /** The rebind invariant: every handler's source is the one its position calls for. */
  ghost predicate Linked(s: seq<Handler>, source: map<Handler, Option<Store>>, origin: Option<Store>)
  {
    && (forall i :: 0 <= i < |s| ==> s[i] in source)
    && (forall i {:trigger source[s[i]]} :: 0 <= i < |s| && s[i] in source ==> source[s[i]] == Downstream(s, origin, i))
  }

  /**
   * Position of the first handler of s, from index `from` on, that is an
   * instance of t.
   */
  function FirstIndexFrom(s: seq<Handler>, t: HandlerType, from: nat): (r: Option<nat>)
    requires from <= |s|
    ensures r.Some? ==> from <= r.value < |s| && IsInstanceOf(s[r.value], t)
    ensures r.Some? ==> forall j :: from <= j < r.value ==> !IsInstanceOf(s[j], t)
    ensures r.None? ==> forall j :: from <= j < |s| ==> !IsInstanceOf(s[j], t)
    decreases |s| - from
  {
    if from == |s| then None
    else if IsInstanceOf(s[from], t) then Some(from)
    else FirstIndexFrom(s, t, from + 1)
  }

  /** g_slist_remove: the list without the first occurrence of x. */
  function RemoveFirst(s: seq<Handler>, x: Handler): (r: seq<Handler>)
    ensures x !in s ==> r == s
    ensures x in s ==> |r| == |s| - 1
  {
    if s == [] then []
    else if s[0] == x then s[1..]
    else [s[0]] + RemoveFirst(s[1..], x)
  }

  /** Removing the first occurrence of x, found at position i, cuts out exactly position i. */
  lemma {:induction false} RemoveFirstAt(s: seq<Handler>, x: Handler, i: nat)
    requires i < |s| && s[i] == x && x !in s[..i]
    ensures RemoveFirst(s, x) == s[..i] + s[i + 1..]
  {
    if i > 0 {
      assert s[0] != x by { assert s[0] == s[..i][0]; }
      assert s[1..][..i - 1] == s[1..i];
      assert x !in s[1..][..i - 1] by { assert s[1..i] == s[..i][1..]; }
      RemoveFirstAt(s[1..], x, i - 1);
      assert s[..i] == [s[0]] + s[1..][..i - 1];
      assert s[i + 1..] == s[1..][i..];
    }
  }

  /** The handlers of s that are not caches, in their order. */
  function NonCaches(s: seq<Handler>): (r: seq<Handler>)
    ensures |r| <= |s|
  {
    if s == [] then []
    else if IsCache(s[0]) then NonCaches(s[1..])
    else [s[0]] + NonCaches(s[1..])
  }

  /** NonCaches keeps exactly the handlers of s that are not caches. */
  lemma {:induction false} NonCachesMembers(s: seq<Handler>)
    ensures forall h :: h in NonCaches(s) <==> h in s && !IsCache(h)
  {
    if s != [] {
      NonCachesMembers(s[1..]);
      assert s == [s[0]] + s[1..];
    }
  }

  /** Caches keeps exactly the handlers of s that are caches. */
  lemma {:induction false} CachesMembers(s: seq<Handler>)
    ensures forall h :: h in Caches(s) <==> h in s && IsCache(h)
  {
    if s != [] {
      CachesMembers(s[1..]);
      assert s == [s[0]] + s[1..];
    }
  }

  /** The cache handlers of s, in their order. */
  function Caches(s: seq<Handler>): seq<Handler>
  {
    if s == [] then []
    else if IsCache(s[0]) then [s[0]] + Caches(s[1..])
    else Caches(s[1..])
  }

  // ---------------------------------------------------------------------
  // The release log
  // ---------------------------------------------------------------------

  datatype Event =
    | Released(h: Handler, boundTo: Option<Store>)  // the chain drops its reference to h
    | ParentDisposed                               // the parent class's dispose runs

  /** The handlers released by a log, in order. */
  function ReleasedHandlers(log: seq<Event>): (r: seq<Handler>)
    ensures |r| <= |log|
  {
    if log == [] then []
    else if log[0].Released? then [log[0].h] + ReleasedHandlers(log[1..])
    else ReleasedHandlers(log[1..])
  }

  /**
   * The releases the cache teardown performs on a chain s, after the first k
   * positions of s have been dealt with: each cache among s[..k], head to
   * tail, bound to its downstream neighbour in s.
   */
  function CacheReleases(s: seq<Handler>, origin: Option<Store>, k: nat): seq<Event>
    requires k <= |s|
  {
    if k == 0 then []
    else CacheReleases(s, origin, k - 1) +
         (if IsCache(s[k - 1]) then [Released(s[k - 1], Downstream(s, origin, k - 1))] else [])
  }

  /** The releases of the handlers left once the caches are gone, head to tail. */
  function PlainReleases(f: seq<Handler>, origin: Option<Store>): (r: seq<Event>)
    ensures |r| == |f|
    ensures forall j {:trigger r[j]} :: 0 <= j < |f| ==> r[j] == Released(f[j], Downstream(f, origin, j))
  {
    seq(|f|, j requires 0 <= j < |f| => Released(f[j], Downstream(f, origin, j)))
  }

  /** Everything disposal appends to the log for a chain s with source origin. */
  function DisposeLog(s: seq<Handler>, origin: Option<Store>): seq<Event>
  {
    CacheReleases(s, origin, |s|) + PlainReleases(NonCaches(s), origin) + [ParentDisposed]
  }

  /** The handler released at a log position is a cache. */
  predicate IsCacheRelease(e: Event)
  {
    e.Released? && IsCache(e.h)
  }

  /**
   * Every release that flushes into a handler finds that handler not yet
   * released.
   */
  ghost predicate FlushesReachLiveStores(log: seq<Event>)
  {
    forall p :: 0 <= p < |log| && IsCacheRelease(log[p]) &&
                log[p].boundTo.Some? && log[p].boundTo.value.HandlerStore? ==>
      log[p].boundTo.value.h !in ReleasedHandlers(log[..p])
  }

  // ---------------------------------------------------------------------
  // Lemmas about the specification functions
  // ---------------------------------------------------------------------

  lemma {:induction false} ReleasedHandlersAppend(a: seq<Event>, b: seq<Event>)
    ensures ReleasedHandlers(a + b) == ReleasedHandlers(a) + ReleasedHandlers(b)
  {
    if a == [] {
      assert a + b == b;
    } else {
      assert (a + b)[1..] == a[1..] + b;
      ReleasedHandlersAppend(a[1..], b);
    }
  }

  /** The cache teardown releases exactly the caches of s[..k], in their order. */
  lemma {:induction false} CacheReleasesReleaseCaches(s: seq<Handler>, origin: Option<Store>, k: nat)
    requires k <= |s|
    ensures forall e :: e in CacheReleases(s, origin, k) ==> IsCacheRelease(e)
    ensures ReleasedHandlers(CacheReleases(s, origin, k)) == Caches(s[..k])
  {
    if k > 0 {
      CacheReleasesReleaseCaches(s, origin, k - 1);
      CacheReleasesStep(s, origin, k);
      PrefixSnoc(s, k);
      CachesAppend(s[..k - 1], [s[k - 1]]);
      assert [s[k - 1]][1..] == [];
    }
  }

  lemma {:induction false} CachesAppend(a: seq<Handler>, b: seq<Handler>)
    ensures Caches(a + b) == Caches(a) + Caches(b)
  {
    if a == [] {
      assert a + b == b;
    } else {
      assert (a + b)[1..] == a[1..] + b;
      CachesAppend(a[1..], b);
    }
  }

  /** Every handler is either a cache or not: the two filters partition s. */
  lemma {:induction false} CachesAndNonCachesPartition(s: seq<Handler>)
    ensures multiset(Caches(s)) + multiset(NonCaches(s)) == multiset(s)
  {
    if s != [] {
      CachesAndNonCachesPartition(s[1..]);
      assert s == [s[0]] + s[1..];
    }
  }

  /**
   * The teardown leaves no cache and keeps the other handlers in their
   * relative order: NonCaches of a concatenation is the concatenation of the
   * NonCaches.
   */
  lemma {:induction false} NonCachesAppend(a: seq<Handler>, b: seq<Handler>)
    ensures NonCaches(a + b) == NonCaches(a) + NonCaches(b)
  {
    if a == [] {
      assert a + b == b;
    } else {
      assert (a + b)[1..] == a[1..] + b;
      NonCachesAppend(a[1..], b);
    }
  }

  lemma {:induction false} NonCachesOfDistinct(s: seq<Handler>)
    requires Distinct(s)
    ensures Distinct(NonCaches(s))
  {
    if s != [] {
      DistinctTail(s);
      NonCachesOfDistinct(s[1..]);
      if !IsCache(s[0]) {
        NonCachesMembers(s[1..]);
        DistinctCons(s[0], NonCaches(s[1..]));
      }
    }
  }

  /** Every handler of s is released exactly once by disposal. */
  lemma {:induction false} DisposeReleasesEachHandlerOnce(s: seq<Handler>, origin: Option<Store>)
    ensures multiset(ReleasedHandlers(DisposeLog(s, origin))) == multiset(s)
  {
    var cr := CacheReleases(s, origin, |s|);
    var pr := PlainReleases(NonCaches(s), origin);
    ReleasedHandlersAppend(cr + pr, [ParentDisposed]);
    ReleasedHandlersAppend(cr, pr);
    assert ReleasedHandlers([ParentDisposed]) == [];
    PlainReleasesReleaseInOrder(NonCaches(s), origin);
    CacheReleasesReleaseCaches(s, origin, |s|);
    assert s[..|s|] == s;
    CachesAndNonCachesPartition(s);
  }

  lemma {:induction false} PlainReleasesReleaseInOrder(f: seq<Handler>, origin: Option<Store>)
    ensures ReleasedHandlers(PlainReleases(f, origin)) == f
  {
    if f != [] {
      var r := PlainReleases(f, origin);
      var g := f[1..];
      PlainReleasesReleaseInOrder(g, origin);
      var rg := PlainReleases(g, origin);
      // The releases of the tail have the same handlers as the tail of the releases.
      assert ReleasedHandlers(r[1..]) == g by {
        ReleasedHandlersOfReleases(r[1..], g);
      }
    }
  }

  /** A log of releases whose handlers are, position by position, those of g. */
  lemma {:induction false} ReleasedHandlersOfReleases(r: seq<Event>, g: seq<Handler>)
    requires |r| == |g|
    requires forall j :: 0 <= j < |r| ==> r[j].Released? && r[j].h == g[j]
    ensures ReleasedHandlers(r) == g
  {
    if r != [] {
      ReleasedHandlersOfReleases(r[1..], g[1..]);
    }
  }

  /** One more position of s: the released handlers grow by s[k - 1] exactly when it is a cache. */
  lemma CacheReleasesStep(s: seq<Handler>, origin: Option<Store>, k: nat)
    requires 0 < k <= |s|
    ensures ReleasedHandlers(CacheReleases(s, origin, k)) ==
            ReleasedHandlers(CacheReleases(s, origin, k - 1)) + (if IsCache(s[k - 1]) then [s[k - 1]] else [])
  {
    var tail := if IsCache(s[k - 1]) then [Released(s[k - 1], Downstream(s, origin, k - 1))] else [];
    ReleasedHandlersAppend(CacheReleases(s, origin, k - 1), tail);
    if IsCache(s[k - 1]) {
      assert tail[1..] == [];
    }
  }

  lemma PrefixSnoc<T>(s: seq<T>, k: nat)
    requires 0 < k <= |s|
    ensures s[..k] == s[..k - 1] + [s[k - 1]]
  {
  }

  /** Disposal releases every cache before any handler that is not a cache. */
  lemma {:induction false} DisposeReleasesCachesFirst(s: seq<Handler>, origin: Option<Store>)
    ensures var log := DisposeLog(s, origin);
      forall i, j :: 0 <= i < j < |log| && IsCacheRelease(log[j]) ==> IsCacheRelease(log[i])
  {
    var cr := CacheReleases(s, origin, |s|);
    var f := NonCaches(s);
    var pr := PlainReleases(f, origin);
    var log := DisposeLog(s, origin);
    CacheReleasesReleaseCaches(s, origin, |s|);
    NonCachesMembers(s);
    forall j | |cr| <= j < |log| ensures !IsCacheRelease(log[j]) {
      if j < |cr| + |pr| {
        assert log[j] == pr[j - |cr|];
        assert f[j - |cr|] in f;
      }
    }
    forall i, j | 0 <= i < j < |log| && IsCacheRelease(log[j])
      ensures IsCacheRelease(log[i])
    {
      assert log[i] == cr[i];
      assert cr[i] in cr;
    }
  }

  /**
   * Every cache release in a disposal log flushes into its downstream
   * neighbour at a moment when that neighbour has not been released, and the
   * chain's own source is handed on only at the very end.
   */
  lemma {:induction false} DisposeFlushesIntoLiveStores(s: seq<Handler>, origin: Option<Store>)
    requires Distinct(s)
    requires origin.Some? && origin.value.HandlerStore? ==> origin.value.h !in s
    ensures FlushesReachLiveStores(DisposeLog(s, origin))
    ensures DisposeLog(s, origin)[|DisposeLog(s, origin)| - 1] == ParentDisposed
    ensures ParentDisposed !in DisposeLog(s, origin)[..|DisposeLog(s, origin)| - 1]
  {
    var cr := CacheReleases(s, origin, |s|);
    var pr := PlainReleases(NonCaches(s), origin);
    var log := DisposeLog(s, origin);
    CacheReleasesFlushIntoLiveStores(s, origin, |s|);
    CacheReleasesReleaseCaches(s, origin, |s|);
    NonCachesMembers(s);
    forall p | |cr| <= p < |log| ensures !IsCacheRelease(log[p]) {
      if p < |cr| + |pr| {
        assert log[p] == pr[p - |cr|];
        assert NonCaches(s)[p - |cr|] in NonCaches(s);
      }
    }
    forall p | 0 <= p < |log| && IsCacheRelease(log[p]) &&
               log[p].boundTo.Some? && log[p].boundTo.value.HandlerStore?
      ensures log[p].boundTo.value.h !in ReleasedHandlers(log[..p])
    {
      assert log[..p] == cr[..p];
      assert log[p] == cr[p];
    }
    assert log[..|log| - 1] == cr + pr;
    assert forall e :: e in cr ==> e.Released?;
  }

  lemma {:induction false} CacheReleasesFlushIntoLiveStores(s: seq<Handler>, origin: Option<Store>, k: nat)
    requires k <= |s| && Distinct(s)
    requires origin.Some? && origin.value.HandlerStore? ==> origin.value.h !in s
    ensures FlushesReachLiveStores(CacheReleases(s, origin, k))
  {
    if k > 0 {
      var prev := CacheReleases(s, origin, k - 1);
      CacheReleasesFlushIntoLiveStores(s, origin, k - 1);
      CacheReleasesReleaseCaches(s, origin, k - 1);
      if !IsCache(s[k - 1]) {
        assert CacheReleases(s, origin, k) == prev;
      } else {
        var e := Released(s[k - 1], Downstream(s, origin, k - 1));
        var log := prev + [e];
        assert CacheReleases(s, origin, k) == log;
        if e.boundTo.Some? && e.boundTo.value.HandlerStore? {
          // The neighbour lies beyond position k - 1, so it is not among the caches released so far.
          var d := e.boundTo.value.h;
          if k < |s| {
            assert d == s[k];
            var before := s[..k - 1];
            forall i | 0 <= i < |before| ensures before[i] != d {
              assert At(s, i) != At(s, k);
            }
          }
          assert d !in s[..k - 1];
          CachesMembers(s[..k - 1]);
        }
        forall p | 0 <= p < |log| && IsCacheRelease(log[p]) &&
                   log[p].boundTo.Some? && log[p].boundTo.value.HandlerStore?
          ensures log[p].boundTo.value.h !in ReleasedHandlers(log[..p])
        {
          if p < |prev| {
            assert log[..p] == prev[..p];
            assert log[p] == prev[p];
          } else {
            assert log[..p] == prev;
          }
        }
      }
    }
  }

  // ---------------------------------------------------------------------
  // Resolution of a request through the links
  // ---------------------------------------------------------------------

  /** Following a store's source link n times; a store outside the links ends the walk. */
  ghost function Follow(st: Option<Store>, source: map<Handler, Option<Store>>, n: nat): Option<Store>
    decreases n
  {
    if n == 0 then st
    else if st.Some? && st.value.HandlerStore? && st.value.h in source then
      Follow(source[st.value.h], source, n - 1)
    else None
  }

  /**
   * Under the rebind invariant, walking the links from the handler at
   * position j visits the following handlers in order and then reaches the
   * chain's own source.
   */
  lemma {:induction false} FollowWalksTheChain(s: seq<Handler>, source: map<Handler, Option<Store>>,
                                               origin: Option<Store>, j: nat, n: nat)
    requires Linked(s, source, origin)
    requires j < |s| && j + n <= |s|
    ensures Follow(Some(HandlerStore(s[j])), source, n) ==
            if j + n < |s| then Some(HandlerStore(s[j + n])) else origin
    decreases n
  {
    if n > 0 {
      assert source[s[j]] == Downstream(s, origin, j);
      if j + 1 < |s| {
        FollowWalksTheChain(s, source, origin, j + 1, n - 1);
      }
    }
  }

  // ---------------------------------------------------------------------
  // The chain object
  // ---------------------------------------------------------------------

  /** A tile request as the chain forwards it. */
  datatype Forwarded =
    | GetTileCall(to: Store, x: int, y: int, z: int)
    | MessageCall(to: Store, message: nat, x: int, y: int, z: int, data: nat)

  class Chain {
    /** The handlers, head first. */
    var chain: seq<Handler>
    /** The `source` property of every handler the chain has bound. */
    var source: map<Handler, Option<Store>>
    /** The chain's own `source` property: the store the tail forwards to. */
    var origin: Option<Store>
    /** The handlers released so far, with what each was bound to at the time. */
    var log: seq<Event>

    ghost predicate Valid()
      reads this
    {
      && Distinct(chain)
      && (origin.Some? && origin.value.HandlerStore? ==> origin.value.h !in chain)
      && Linked(chain, source, origin)
    }

    constructor (origin: Option<Store>)
      ensures Valid()
      ensures this.origin == origin && chain == [] && source == map[] && log == []
    {
      this.origin := origin;
      chain := [];
      source := map[];
      log := [];
    }

    /** The store a request to the chain goes to: the head handler, else the chain's own source. */
    function Target(): (st: Store)
      reads this
      requires chain != [] || origin.Some?
      ensures chain != [] ==> st == HandlerStore(chain[0])
      ensures chain == [] ==> Some(st) == origin
    {
      if chain != [] then HandlerStore(chain[0]) else origin.value
    }

    /** get_tile on the chain: the same request, forwarded to the head or to the chain's source. */
    function GetTile(x: int, y: int, z: int): (c: Forwarded)
      reads this
      requires chain != [] || origin.Some?
      ensures c.GetTileCall? && c.x == x && c.y == y && c.z == z
      ensures chain != [] ==> c.to == HandlerStore(chain[0])
      ensures chain == [] ==> Some(c.to) == origin
    {
      GetTileCall(Target(), x, y, z)
    }

    /** message on the chain: forwarded like get_tile, with the message and its data unchanged. */
    function Message(message: nat, x: int, y: int, z: int, data: nat): (c: Forwarded)
      reads this
      requires chain != [] || origin.Some?
      ensures c.MessageCall? && c.message == message && c.data == data
      ensures c.x == x && c.y == y && c.z == z
      ensures chain != [] ==> c.to == HandlerStore(chain[0])
      ensures chain == [] ==> Some(c.to) == origin
    {
      MessageCall(Target(), message, x, y, z, data)
    }

    /**
     * A request to the chain, followed through the source links, passes the
     * handlers head to tail and then reaches the chain's own source.
     */
    lemma RequestsWalkTheChain(n: nat)
      requires Valid() && (chain != [] || origin.Some?)
      requires n <= |chain|
      ensures Follow(Some(Target()), source, n) ==
              if n < |chain| then Some(HandlerStore(chain[n])) else origin
    {
      if chain != [] {
        FollowWalksTheChain(chain, source, origin, 0, n);
      }
    }

    /** The first handler, head to tail, that is an instance of t. */
    function GetFirst(t: HandlerType): (r: Option<Handler>)
      reads this
      ensures r.None? <==> forall h :: h in chain ==> !IsInstanceOf(h, t)
      ensures r.Some? ==> exists i :: (0 <= i < |chain| && chain[i] == r.value &&
                                       IsInstanceOf(chain[i], t) &&
                                       forall j :: 0 <= j < i ==> !IsInstanceOf(chain[j], t))
    {
      match FirstIndexFrom(chain, t, 0)
      case None => None
      case Some(i) => Some(chain[i])
    }

    /** Points every handler's source at the next handler, and the tail's at the chain's source. */
    method Rebind()
      requires Distinct(chain)
      requires origin.Some? && origin.value.HandlerStore? ==> origin.value.h !in chain
      modifies this
      ensures Valid()
      ensures chain == old(chain) && origin == old(origin) && log == old(log)
      ensures forall h :: h in source <==> h in old(source) || h in chain
      ensures forall h :: h in old(source) && h !in chain ==> source[h] == old(source)[h]
    {
      var i := 0;
      while i < |chain|
        modifies this`source
        invariant 0 <= i <= |chain|
        invariant forall j :: 0 <= j < i ==> chain[j] in source && source[chain[j]] == Downstream(chain, origin, j)
        invariant forall h :: h in source ==> h in old(source) || h in chain
        invariant forall h :: h in old(source) ==> h in source
        invariant forall h :: h in old(source) && h !in chain ==> source[h] == old(source)[h]
      {
        forall j | 0 <= j < i ensures chain[j] != chain[i] {
          assert At(chain, j) != At(chain, i);
        }
        var next := if i + 1 < |chain| then Some(HandlerStore(chain[i + 1])) else origin;
        source := source[chain[i] := next];
        i := i + 1;
      }
    }

    /** Puts h at the head of the chain, rebinds, and returns h. */
    method Add(h: Handler) returns (r: Handler)
      requires Valid()
      requires h !in chain && origin != Some(HandlerStore(h))
      modifies this
      ensures Valid()
      ensures r == h && chain == [h] + old(chain)
      ensures origin == old(origin) && log == old(log)
      ensures forall g :: g in source <==> g in old(source) || g in chain
      ensures forall g :: g in old(source) && g !in chain ==> source[g] == old(source)[g]
    {
      DistinctCons(h, chain);
      chain := [h] + chain;
      Rebind();
      r := h;
    }

    /**
     * nuke_cache: while the chain holds a cache handler, release the first
     * one, remove it from the list and rebind.  Each cache is therefore
     * released while still bound to its downstream neighbour, and the caches
     * go in head-to-tail order.
     */
    method NukeCache()
      requires Valid()
      modifies this
      ensures Valid()
      ensures chain == NonCaches(old(chain))
      ensures origin == old(origin)
      ensures log == old(log) + CacheReleases(old(chain), origin, |old(chain)|)
      ensures forall g :: g in source <==> g in old(source)
      ensures forall g :: g in old(source) && g !in chain ==> source[g] == old(source)[g]
    {
      ghost var orig := chain;
      ghost var source0 := source;
      ghost var k: nat := 0;
      assert orig[..0] == [] && orig[0..] == orig;
      var first := GetFirst(CacheHandler);
      while first.Some?
        invariant Valid() && origin == old(origin)
        invariant k <= |orig|
        invariant chain == NonCaches(orig[..k]) + orig[k..]
        invariant log == old(log) + CacheReleases(orig, origin, k)
        invariant first == GetFirst(CacheHandler)
        invariant Linked(orig, source0, origin)
        invariant forall g :: g in source <==> g in source0
        invariant forall g :: g in source0 && g !in NonCaches(orig[..k]) ==> source[g] == source0[g]
        decreases |chain|
      {
        ghost var before := chain;
        ghost var logBefore := log;
        ghost var sourceBefore := source;
        ghost var kBefore := k;
        ghost var i := ReleaseFirstCache();
        k := NukeStep(old(log), orig, origin, k, before, logBefore, i, chain, log);
        BindingsKept(orig, origin, kBefore, k, chain, source0, sourceBefore, source);
        first := GetFirst(CacheHandler);
      }
      NukeDone(orig, origin, k, chain);
    }

    /**
     * One round of nuke_cache: the scan from the head stops at the first
     * cache handler, which is released while bound to its downstream
     * neighbour, removed from the list, and the chain is rebound.
     */
    method ReleaseFirstCache() returns (ghost i: nat)
      requires Valid() && FirstIndexFrom(chain, CacheHandler, 0).Some?
      modifies this
      ensures Valid() && origin == old(origin)
      ensures FirstIndexFrom(old(chain), CacheHandler, 0) == Some(i)
      ensures chain == old(chain)[..i] + old(chain)[i + 1..] && |chain| == |old(chain)| - 1
      ensures log == old(log) + [Released(old(chain)[i], Downstream(old(chain), origin, i))]
      ensures forall g :: g in source <==> g in old(source)
      ensures forall g :: g in old(source) && g !in chain ==> source[g] == old(source)[g]
    {
      ghost var idx := FirstIndexFrom(chain, CacheHandler, 0).value;
      var p := 0;
      while !IsCache(chain[p])
        invariant 0 <= p <= idx
        invariant forall j :: 0 <= j < p ==> !IsCache(chain[j])
        decreases idx - p
      {
        p := p + 1;
      }
      assert p == idx;
      var h := chain[p];
      assert source[h] == Downstream(chain, origin, p);
      log := log + [Released(h, source[h])];
      DistinctPrefix(chain, p);
      RemoveFirstAt(chain, h, p);
      DistinctWithout(chain, p);
      chain := RemoveFirst(chain, h);
      Rebind();
      i := p;
    }

    /**
     * dispose: the caches go first (see NukeCache); then every remaining
     * handler is released head to tail, the list is freed, and the parent
     * class's dispose runs.
     */
    method Dispose()
      requires Valid()
      modifies this
      ensures Valid() && chain == [] && origin == old(origin)
      ensures log == old(log) + DisposeLog(old(chain), origin)
      ensures forall g :: g in source <==> g in old(source)
      ensures forall g :: g in old(source) && g !in NonCaches(old(chain)) ==> source[g] == old(source)[g]
      ensures Linked(NonCaches(old(chain)), source, origin)
    {
      ghost var orig := chain;
      NukeCache();
      ghost var cr := log;
      var i := 0;
      while i < |chain|
        modifies this`log
        invariant 0 <= i <= |chain|
        invariant Linked(chain, source, origin)
        invariant log == cr + PlainReleases(chain, origin)[..i]
      {
        PlainReleaseStep(cr, chain, source, origin, i, log);
        log := log + [Released(chain[i], source[chain[i]])];
        i := i + 1;
      }
      DisposeLogOf(old(log), orig, origin, log);
      chain := [];
      log := log + [ParentDisposed];
    }
  }

  /** One round of the plain loop of dispose: the release at position i extends the log by one. */
  lemma PlainReleaseStep(cr: seq<Event>, s: seq<Handler>, source: map<Handler, Option<Store>>,
                         origin: Option<Store>, i: nat, log: seq<Event>)
    requires Linked(s, source, origin) && i < |s|
    requires log == cr + PlainReleases(s, origin)[..i]
    ensures s[i] in source
    ensures log + [Released(s[i], source[s[i]])] == cr + PlainReleases(s, origin)[..i + 1]
  {
    PrefixSnoc(PlainReleases(s, origin), i + 1);
  }

  /** The log of dispose, put together from its cache part and its plain part. */
  lemma DisposeLogOf(before: seq<Event>, s: seq<Handler>, origin: Option<Store>, after: seq<Event>)
    requires after == before + CacheReleases(s, origin, |s|) +
                       PlainReleases(NonCaches(s), origin)[..|NonCaches(s)|]
    ensures after + [ParentDisposed] == before + DisposeLog(s, origin)
  {
    var p := PlainReleases(NonCaches(s), origin);
    assert p[..|NonCaches(s)|] == p;
  }

  /**
   * One round of the cache teardown, on values: the first cache of the
   * current chain, at position i, is the cache at position m of the original
   * chain, bound to its original downstream neighbour; the round leaves the
   * chain and the log that position m + 1 of the original chain calls for.
   */
  lemma NukeStep(base: seq<Event>, orig: seq<Handler>, origin: Option<Store>, k: nat,
                 chain: seq<Handler>, log: seq<Event>, i: nat,
                 chain': seq<Handler>, log': seq<Event>) returns (k': nat)
    requires k <= |orig|
    requires chain == NonCaches(orig[..k]) + orig[k..]
    requires log == base + CacheReleases(orig, origin, k)
    requires FirstIndexFrom(chain, CacheHandler, 0) == Some(i)
    requires chain' == chain[..i] + chain[i + 1..]
    requires log' == log + [Released(chain[i], Downstream(chain, origin, i))]
    ensures k < k' <= |orig|
    ensures chain' == NonCaches(orig[..k']) + orig[k'..]
    ensures log' == base + CacheReleases(orig, origin, k')
  {
    var done := NonCaches(orig[..k]);
    NonCachesMembers(orig[..k]);
    var m := LocateFirstCache(orig, done, k, chain, i, origin);
    ChainAfterRound(orig, k, m, done, chain, i, chain');
    LogAfterRound(base, orig, origin, k, m, log, log');
    k' := m + 1;
  }

  /**
   * A round of nuke_cache leaves every binding outside the kept non-caches
   * as it was before the teardown: a handler still ahead in the original
   * chain keeps its downstream neighbour, and a released cache is no longer
   * rebound.
   */
  lemma BindingsKept(orig: seq<Handler>, origin: Option<Store>, k: nat, k': nat,
                     chain': seq<Handler>, source0: map<Handler, Option<Store>>,
                     source: map<Handler, Option<Store>>, source': map<Handler, Option<Store>>)
    requires Linked(orig, source0, origin)
    requires k <= k' <= |orig|
    requires chain' == NonCaches(orig[..k']) + orig[k'..]
    requires forall g :: g in source <==> g in source0
    requires forall g :: g in source0 && g !in NonCaches(orig[..k]) ==> source[g] == source0[g]
    requires forall g :: g in source' <==> g in source
    requires forall g :: g in source && g !in chain' ==> source'[g] == source[g]
    requires Linked(chain', source', origin)
    ensures forall g :: g in source' <==> g in source0
    ensures forall g :: g in source0 && g !in NonCaches(orig[..k']) ==> source'[g] == source0[g]
  {
    var done := NonCaches(orig[..k']);
    NonCachesMembers(orig[..k]);
    NonCachesMembers(orig[..k']);
    forall g | g in NonCaches(orig[..k])
      ensures g in done
    {
      var a :| 0 <= a < k && orig[..k][a] == g;
      assert orig[..k'][a] == g;
    }
    forall g | g in source0 && g !in done
      ensures source'[g] == source0[g]
    {
      if g in chain' {
        assert g in orig[k'..];
        var a :| 0 <= a < |orig[k'..]| && orig[k'..][a] == g;
        var j := k' + a;
        var p := |done| + a;
        assert chain'[p] == orig[j];
        assert source'[chain'[p]] == Downstream(chain', origin, p);
        assert source0[orig[j]] == Downstream(orig, origin, j);
        if j + 1 < |orig| {
          assert chain'[p + 1] == orig[j + 1];
        }
      }
    }
  }

  /** The chain after a round: the non-caches passed over join the kept handlers, the cache is gone. */
  lemma ChainAfterRound(orig: seq<Handler>, k: nat, m: nat, done: seq<Handler>,
                        chain: seq<Handler>, i: nat, chain': seq<Handler>)
    requires k <= m < |orig| && done == NonCaches(orig[..k])
    requires forall j :: k <= j < m ==> !IsCache(orig[j])
    requires IsCache(orig[m])
    requires i < |chain| && chain[..i] == done + orig[k..m] && chain[i + 1..] == orig[m + 1..]
    requires chain' == chain[..i] + chain[i + 1..]
    ensures chain' == NonCaches(orig[..m + 1]) + orig[m + 1..]
  {
    NonCachesStepPastCache(orig, k, m);
    assert (done + orig[k..m]) + orig[m + 1..] == NonCaches(orig[..m + 1]) + orig[m + 1..];
  }

  /** The log after a round: the release of the cache at position m follows those before it. */
  lemma LogAfterRound(base: seq<Event>, orig: seq<Handler>, origin: Option<Store>, k: nat, m: nat,
                      log: seq<Event>, log': seq<Event>)
    requires k <= m < |orig|
    requires forall j :: k <= j < m ==> !IsCache(orig[j])
    requires IsCache(orig[m])
    requires log == base + CacheReleases(orig, origin, k)
    requires log' == log + [Released(orig[m], Downstream(orig, origin, m))]
    ensures log' == base + CacheReleases(orig, origin, m + 1)
  {
    CacheReleasesSkip(orig, origin, k, m);
    assert CacheReleases(orig, origin, m + 1) ==
           CacheReleases(orig, origin, k) + [Released(orig[m], Downstream(orig, origin, m))];
  }

  /**
   * Where the first cache of the current chain sits in the original chain:
   * the kept handlers in front of the unprocessed part hold no cache, so the
   * cache at position i is orig[m] and everything between is a non-cache.
   */
  lemma LocateFirstCache(orig: seq<Handler>, done: seq<Handler>, k: nat, chain: seq<Handler>, i: nat,
                         origin: Option<Store>) returns (m: nat)
    requires k <= |orig| && chain == done + orig[k..]
    requires forall h :: h in done ==> !IsCache(h)
    requires i < |chain| && IsCache(chain[i])
    requires forall j :: 0 <= j < i ==> !IsCache(chain[j])
    ensures k <= m < |orig| && orig[m] == chain[i] && m - k == i - |done|
    ensures forall j :: k <= j < m ==> !IsCache(orig[j])
    ensures chain[..i] == done + orig[k..m]
    ensures chain[i + 1..] == orig[m + 1..]
    ensures Downstream(chain, origin, i) == Downstream(orig, origin, m)
  {
    m := k + (i - |done|);
    forall j | k <= j < m ensures !IsCache(orig[j]) {
      assert orig[j] == chain[|done| + (j - k)];
    }
  }

  lemma DistinctPrefix(s: seq<Handler>, i: nat)
    requires Distinct(s) && i < |s|
    ensures s[i] !in s[..i]
  {
    var p := s[..i];
    forall j | 0 <= j < |p| ensures p[j] != s[i] {
      assert At(s, j) != At(s, i);
    }
  }

  /** Positions without caches add nothing to the cache releases. */
  lemma {:induction false} CacheReleasesSkip(s: seq<Handler>, origin: Option<Store>, k: nat, m: nat)
    requires k <= m <= |s|
    requires forall j :: k <= j < m ==> !IsCache(s[j])
    ensures CacheReleases(s, origin, m) == CacheReleases(s, origin, k)
    decreases m - k
  {
    if k < m {
      CacheReleasesSkip(s, origin, k, m - 1);
    }
  }

  /** Passing over non-caches up to a cache: the kept handlers grow by exactly those non-caches. */
  lemma NonCachesStepPastCache(s: seq<Handler>, k: nat, m: nat)
    requires k <= m < |s|
    requires forall j :: k <= j < m ==> !IsCache(s[j])
    requires IsCache(s[m])
    ensures NonCaches(s[..m + 1]) == NonCaches(s[..k]) + s[k..m]
  {
    assert s[..m + 1] == s[..k] + (s[k..m] + [s[m]]);
    NonCachesAppend(s[..k], s[k..m] + [s[m]]);
    NonCachesAppend(s[k..m], [s[m]]);
    NonCachesOfNoCaches(s[k..m]);
    assert [s[m]][1..] == [];
  }

  lemma {:induction false} NonCachesOfNoCaches(s: seq<Handler>)
    requires forall h :: h in s ==> !IsCache(h)
    ensures NonCaches(s) == s
  {
    if s != [] {
      NonCachesOfNoCaches(s[1..]);
    }
  }

  lemma DistinctWithout(s: seq<Handler>, i: nat)
    requires Distinct(s) && i < |s|
    ensures Distinct(s[..i] + s[i + 1..])
  {
    var r := s[..i] + s[i + 1..];
    forall a, b | 0 <= a < b < |r| ensures r[a] != r[b] {
      var a' := if a < i then a else a + 1;
      var b' := if b < i then b else b + 1;
      assert At(r, a) == At(s, a') && At(r, b) == At(s, b');
    }
  }

  /** The teardown stops once the chain holds no cache: all caches are then released. */
  lemma NukeDone(orig: seq<Handler>, origin: Option<Store>, k: nat, chain: seq<Handler>)
    requires k <= |orig| && chain == NonCaches(orig[..k]) + orig[k..]
    requires forall h :: h in chain ==> !IsCache(h)
    ensures chain == NonCaches(orig)
    ensures CacheReleases(orig, origin, k) == CacheReleases(orig, origin, |orig|)
  {
    forall j | k <= j < |orig| ensures !IsCache(orig[j]) {
      assert orig[j] == chain[|NonCaches(orig[..k])| + (j - k)];
    }
    NoCacheLeft(orig, origin, k);
    assert orig[..|orig|] == orig;
  }

  /** Once no cache is left beyond position k, the teardown is complete. */
  lemma {:induction false} NoCacheLeft(s: seq<Handler>, origin: Option<Store>, k: nat)
    requires k <= |s|
    requires forall j :: k <= j < |s| ==> !IsCache(s[j])
    ensures NonCaches(s[..k]) + s[k..] == NonCaches(s)
    ensures CacheReleases(s, origin, k) == CacheReleases(s, origin, |s|)
    decreases |s| - k
  {
    assert s == s[..k] + s[k..];
    NonCachesAppend(s[..k], s[k..]);
    NonCachesOfNoCaches(s[k..]);
    if k < |s| {
      NoCacheLeft(s, origin, k + 1);
      assert s[..k + 1] == s[..k] + [s[k]];
      NonCachesAppend(s[..k], [s[k]]);
      assert [s[k]][1..] == [];
    }
  }
}
