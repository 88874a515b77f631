/** The tone mapper's cache of EGL images. Images are found by the ION handle ("cookie") of a buffer; the
    cache keeps one reference to each cookie it holds, so that the kernel cannot give the number to
    another buffer, and deletes the image of the least recently used cookie when it is full.
 */
module EglImageCache {
  import opened LruOrder

  /** An imported buffer and the references held to it. */
  datatype Handle = Handle(buffer: nat, refs: nat)

  /** An EGL image, numbered in order of creation, and the buffer it wraps. */
  datatype Image = Image(id: nat, buffer: nat)

  ghost predicate OneHandlePerBuffer(handles: map<int, Handle>) {
    forall c, d :: c in handles && d in handles && handles[c].buffer == handles[d].buffer ==> c == d
  }

  /** The kernel numbers a new handle as it likes, but not like one in use. */
  ghost predicate PicksUnused(pick: (nat, set<int>) -> int) {
    forall n, used :: pick(n, used) !in used
  }

  /** The kernel's handle table of this client. Importing a buffer again gives the same handle with one
      more reference; a handle whose last reference is freed may be used for another buffer. */
  class Ion {
    const pick: (nat, set<int>) -> int
    var handles: map<int, Handle>
    var imports: nat

    constructor (pick: (nat, set<int>) -> int)
      ensures handles == map[] && this.pick == pick
    {
      this.pick := pick;
      handles, imports := map[], 0;
    }

    method Import(buffer: nat) returns (cookie: int)
      requires OneHandlePerBuffer(handles) && PicksUnused(pick)
      modifies this
      ensures OneHandlePerBuffer(handles)
      ensures cookie in old(handles) ==>
                && old(handles[cookie]).buffer == buffer
                && handles == old(handles)[cookie := Handle(buffer, old(handles[cookie]).refs + 1)]
      ensures cookie !in old(handles) ==>
                && (forall c :: c in old(handles) ==> old(handles[c]).buffer != buffer)
                && handles == old(handles)[cookie := Handle(buffer, 1)]
    {
      if c :| c in handles && handles[c].buffer == buffer {
        cookie := c;
        handles := handles[c := Handle(buffer, handles[c].refs + 1)];
      } else {
        cookie := pick(imports, handles.Keys);
        handles := handles[cookie := Handle(buffer, 1)];
      }
      imports := imports + 1;
    }

    method Free(cookie: int)
      modifies this`handles
      ensures cookie !in old(handles) ==> handles == old(handles)
      ensures cookie in old(handles) && old(handles[cookie]).refs > 1 ==>
                handles == old(handles)[cookie := old(handles[cookie]).(refs := old(handles[cookie]).refs - 1)]
      ensures cookie in old(handles) && old(handles[cookie]).refs <= 1 ==> handles == old(handles) - {cookie}
    {
      if cookie in handles {
        if handles[cookie].refs > 1 {
          handles := handles[cookie := handles[cookie].(refs := handles[cookie].refs - 1)];
        } else {
          handles := handles - {cookie};
        }
      }
    }
  }

  // ---------------------------------------------------------------------------------------------
  // The cache as a value
  // ---------------------------------------------------------------------------------------------

  /** Cookies from the least to the most recently used one, and their images. */
  datatype Cache = Cache(order: seq<int>, images: map<int, Image>)

  ghost predicate WellFormed(c: Cache) {
    && NoDuplicates(c.order) && (forall k :: k in c.images <==> k in c.order)
    && (forall k, l :: k in c.images && l in c.images && c.images[k].buffer == c.images[l].buffer ==> k == l)
    && (forall k, l :: k in c.images && l in c.images && c.images[k].id == c.images[l].id ==> k == l)
  }

  /** One reference for each cached cookie and none for any other. */
  ghost function OneRefEach(images: map<int, Image>): map<int, Handle> {
    map k | k in images :: Handle(images[k].buffer, 1)
  }

  /** A cookie becomes the most recently used one. */
  function Touch(c: Cache, k: int): Cache {
    c.(order := Without(c.order, k) + [k])
  }

  function Evict(c: Cache): Cache
    requires c.order != []
  {
    Cache(c.order[1..], c.images - {c.order[0]})
  }

  function Add(c: Cache, k: int, image: Image): Cache {
    Cache(c.order + [k], c.images[k := image])
  }

  lemma TouchKeeps(c: Cache, k: int)
    requires WellFormed(c) && k in c.images
    ensures WellFormed(Touch(c, k)) && |Touch(c, k).order| == |c.order|
  {
    WithoutNoDuplicates(c.order, k);
    WithoutLength(c.order, k);
  }

  lemma EvictKeeps(c: Cache)
    requires WellFormed(c) && c.order != []
    ensures WellFormed(Evict(c)) && c.order[0] !in Evict(c).images
  {
    forall k | k in c.order && k != c.order[0]
      ensures k in c.order[1..]
    {
      var i :| 0 <= i < |c.order| && c.order[i] == k;
      assert c.order[1..][i - 1] == k;
    }
  }

  lemma AddKeeps(c: Cache, k: int, image: Image)
    requires WellFormed(c) && k !in c.images
    requires forall l :: l in c.images ==> c.images[l].buffer != image.buffer && c.images[l].id != image.id
    ensures WellFormed(Add(c, k, image))
  {
  }

  /** Every image created is in the cache or deleted, and not both. */
  ghost predicate Accounted(images: map<int, Image>, created: nat, deleted: set<nat>) {
    && (forall k :: k in images ==> images[k].id < created && images[k].id !in deleted)
    && (forall id :: id in deleted ==> id < created)
    && |deleted| + |images| == created
  }

  lemma EvictAccounts(c: Cache, created: nat, deleted: set<nat>)
    requires WellFormed(c) && c.order != [] && Accounted(c.images, created, deleted)
    ensures c.order[0] in c.images
    ensures Accounted(Evict(c).images, created, deleted + {c.images[c.order[0]].id})
  {
    var k := c.order[0];
    assert c.images.Keys == Evict(c).images.Keys + {k};
    forall l | l in Evict(c).images
      ensures c.images[l].id != c.images[k].id
    {
    }
  }

  lemma AddAccounts(c: Cache, k: int, buffer: nat, created: nat, deleted: set<nat>)
    requires Accounted(c.images, created, deleted) && k !in c.images
    ensures Accounted(Add(c, k, Image(created, buffer)).images, created + 1, deleted)
  {
    assert Add(c, k, Image(created, buffer)).images.Keys == c.images.Keys + {k};
  }

  /** What wrapping a buffer with cookie `k` makes of a cache: a hit becomes the most recent entry; a miss
      adds a new image, after evicting the oldest entry of a full cache. */
  function Wrapped(c: Cache, capacity: nat, k: int, image: Image): Cache {
    if k in c.images then Touch(c, k)
    else Add(if |c.order| >= capacity && c.order != [] then Evict(c) else c, k, image)
  }

  /** The images that are deleted on the way. */
  function DeletedBy(c: Cache, capacity: nat, k: int): set<nat> {
    if k in c.images || |c.order| < capacity || c.order == [] || c.order[0] !in c.images then {}
    else {c.images[c.order[0]].id}
  }

  lemma OneRefAfterAdd(c: Cache, k: int, image: Image)
    ensures OneRefEach(Add(c, k, image).images) == OneRefEach(c.images)[k := Handle(image.buffer, 1)]
  {
  }

  lemma OneRefAfterEvict(c: Cache, k: int, h: Handle)
    requires c.order != [] && k != c.order[0]
    ensures OneRefEach(c.images)[k := h] - {c.order[0]} == OneRefEach(Evict(c).images)[k := h]
  {
  }

  lemma OneRefAfterRemove(c: Cache)
    requires c.order != []
    ensures OneRefEach(c.images) - {c.order[0]} == OneRefEach(Evict(c).images)
  {
  }

  /** Whether some image of the cache wraps the buffer. */
  ghost predicate Holds(c: Cache, buffer: nat) {
    exists k :: k in c.images && c.images[k].buffer == buffer
  }

  /** The entry just wrapped is the most recent one. */
  lemma LastOfWrapped(c: Cache, capacity: nat, k: int, image: Image)
    ensures var w := Wrapped(c, capacity, k, image); w.order != [] && w.order[|w.order| - 1] == k
  {
  }

  /** What an import does to a table that holds one reference for each cached cookie. */
  lemma ImportedOnce(images: map<int, Image>, buffer: nat, k: int)
    requires forall k, l :: k in images && l in images && images[k].buffer == images[l].buffer ==> k == l
    requires k in images ==> images[k].buffer == buffer
    requires k !in images ==> forall c :: c in OneRefEach(images) ==> OneRefEach(images)[c].buffer != buffer
    ensures k !in images ==> forall c :: c in images ==> images[c].buffer != buffer
    ensures k in images <==> exists c :: c in images && images[c].buffer == buffer
  {
    if k !in images {
      forall c | c in images
        ensures images[c].buffer != buffer
      {
        assert c in OneRefEach(images);
      }
    }
  }

  /** Wrapping another buffer keeps the image wrapped last if and only if the cache has room for two or
      both are the same buffer. */
  lemma LastWrappedSurvivesIff(c: Cache, capacity: nat, k: int, buffer: nat, last: int)
    requires WellFormed(c) && c.order != [] && |c.order| <= capacity && last == c.order[|c.order| - 1]
    requires last in c.images && (k in c.images <==> Holds(c, buffer))
    ensures c.images[last].id !in DeletedBy(c, capacity, k) <==> capacity >= 2 || c.images[last].buffer == buffer
  {
    if |c.order| == 1 {
      assert c.order == [last];
    } else {
      assert c.order[0] != c.order[|c.order| - 1];
    }
  }

  lemma FirstSurvivesIff(c: Cache, capacity: nat, first: int, image: Image, second: int, buffer: nat, gone: set<nat>)
    requires var w := Wrapped(c, capacity, first, image);
             && WellFormed(w) && |w.order| <= capacity && first in w.images && w.images[first] == image
             && (second in w.images <==> Holds(w, buffer)) && image.id !in gone
    ensures var w := Wrapped(c, capacity, first, image);
            image.id !in gone + DeletedBy(w, capacity, second) <==> capacity >= 2 || image.buffer == buffer
  {
    LastOfWrapped(c, capacity, first, image);
    LastWrappedSurvivesIff(Wrapped(c, capacity, first, image), capacity, second, buffer, first);
  }

  // ---------------------------------------------------------------------------------------------
  // The cache and the history of wraps
  // ---------------------------------------------------------------------------------------------

  function BufferOf(images: map<int, Image>, k: int): nat {
    if k in images then images[k].buffer else 0
  }

  /** The buffers of the cached images, from the least to the most recently used one. */
  function Buffers(order: seq<int>, images: map<int, Image>): (b: seq<nat>)
    ensures |b| == |order| && forall i :: 0 <= i < |b| ==> b[i] == BufferOf(images, order[i])
  {
    if order == [] then [] else Buffers(order[..|order| - 1], images) + [BufferOf(images, order[|order| - 1])]
  }

  lemma BuffersOfCache(c: Cache, b: nat)
    requires WellFormed(c)
    ensures b in Buffers(c.order, c.images) <==> Holds(c, b)
  {
    var o := Buffers(c.order, c.images);
    if b in o {
      var i :| 0 <= i < |o| && o[i] == b;
      assert c.order[i] in c.order;
    }
    if Holds(c, b) {
      var k :| k in c.images && c.images[k].buffer == b;
      assert k in c.order;
      var i :| 0 <= i < |c.order| && c.order[i] == k;
      assert o[i] == b;
    }
  }

  function History(used: seq<Image>): (h: seq<nat>)
    ensures |h| == |used| && forall i :: 0 <= i < |h| ==> h[i] == used[i].buffer
  {
    if used == [] then [] else History(used[..|used| - 1]) + [used[|used| - 1].buffer]
  }

  lemma HistoryNext(used: seq<Image>, image: Image)
    ensures History(used + [image]) == History(used) + [image.buffer]
  {
  }

  ghost predicate Cached(c: Cache, image: Image) {
    exists k :: k in c.images && c.images[k] == image
  }

  /** The cache is what is left of the history of wraps, whose images were `used`; an image is alive if and
      only if it has been in the cache ever since, and then it is there. */
  ghost predicate Traced(used: seq<Image>, c: Cache, deleted: set<nat>, capacity: nat)
    requires WellFormed(c)
  {
    && Remembers(History(used), Buffers(c.order, c.images), capacity)
    && (forall i :: 0 <= i < |used| ==> Alive(used, i, c, deleted, capacity))
  }

  ghost predicate Alive(used: seq<Image>, i: nat, c: Cache, deleted: set<nat>, capacity: nat)
    requires i < |used|
  {
    && (used[i].id !in deleted <==> Survives(History(used), i, capacity))
    && (used[i].id !in deleted ==> Cached(c, used[i]))
  }

  lemma BuffersNext(order: seq<int>, images: map<int, Image>, k: int)
    ensures Buffers(order + [k], images) == Buffers(order, images) + [BufferOf(images, k)]
  {
  }

  lemma {:induction false} BuffersWithout(order: seq<int>, images: map<int, Image>, k: int)
    requires forall l :: l in order && BufferOf(images, l) == BufferOf(images, k) ==> l == k
    ensures Buffers(Without(order, k), images) == Without(Buffers(order, images), BufferOf(images, k))
  {
    if order != [] {
      var front, l := order[..|order| - 1], order[|order| - 1];
      assert order == front + [l];
      BuffersWithout(front, images, k);
      BuffersNext(front, images, l);
      WithoutNext(front, l, k);
      WithoutNext(Buffers(front, images), BufferOf(images, l), BufferOf(images, k));
      if l != k {
        BuffersNext(Without(front, k), images, l);
      }
    }
  }

  lemma TouchRemembers(h: seq<nat>, c: Cache, capacity: nat, k: int)
    requires WellFormed(c) && k in c.images && Remembers(h, Buffers(c.order, c.images), capacity)
    ensures Remembers(h + [c.images[k].buffer], Buffers(Touch(c, k).order, c.images), capacity)
  {
    var o, b := Buffers(c.order, c.images), c.images[k].buffer;
    BuffersWithout(c.order, c.images, k);
    BuffersNext(Without(c.order, k), c.images, k);
    BuffersOfCache(c, b);
    HitRemembers(h, o, capacity, b);
  }

  lemma AddRemembers(h: seq<nat>, c: Cache, capacity: nat, k: int, image: Image)
    requires WellFormed(c) && |c.order| <= capacity && capacity > 0 && k !in c.images && !Holds(c, image.buffer)
    requires Remembers(h, Buffers(c.order, c.images), capacity)
    ensures var w := Wrapped(c, capacity, k, image);
            Remembers(h + [image.buffer], Buffers(w.order, w.images), capacity)
  {
    var o, w := Buffers(c.order, c.images), Wrapped(c, capacity, k, image);
    BuffersOfCache(c, image.buffer);
    var kept := if |o| >= capacity then o[1..] else o;
    assert Buffers(w.order, w.images) == kept + [image.buffer] by {
      KeptBuffers(c, capacity, k, image);
    }
    MissRemembers(h, o, capacity, image.buffer);
  }

  lemma KeptBuffers(c: Cache, capacity: nat, k: int, image: Image)
    requires WellFormed(c) && |c.order| <= capacity && capacity > 0 && k !in c.images
    ensures var o, w := Buffers(c.order, c.images), Wrapped(c, capacity, k, image);
            Buffers(w.order, w.images) == (if |o| >= capacity then o[1..] else o) + [image.buffer]
  {
    var o, w := Buffers(c.order, c.images), Wrapped(c, capacity, k, image);
    var first := if |o| >= capacity then 1 else 0;
    forall i | 0 <= i < |w.order| - 1
      ensures Buffers(w.order, w.images)[i] == o[i + first]
    {
      var l := c.order[i + first];
      assert w.order[i] == l && l in c.order;
      assert first == 1 ==> l != c.order[0];
    }
  }

  /** The cache stays what is left of the history. */
  lemma WrappedRemembers(h: seq<nat>, c: Cache, capacity: nat, k: int, image: Image)
    requires WellFormed(c) && |c.order| <= capacity && capacity > 0 && (k in c.images <==> Holds(c, image.buffer))
    requires k in c.images ==> image == c.images[k]
    requires Remembers(h, Buffers(c.order, c.images), capacity)
    ensures var w := Wrapped(c, capacity, k, image);
            Remembers(h + [image.buffer], Buffers(w.order, w.images), capacity)
  {
    if k in c.images {
      TouchRemembers(h, c, capacity, k);
    } else {
      AddRemembers(h, c, capacity, k, image);
    }
  }

  /** A cached image stays cached and is not deleted, or is deleted and its buffer is no longer cached. */
  lemma CachedAfterWrap(c: Cache, capacity: nat, k: int, image: Image, was: Image)
    requires WellFormed(c) && Cached(c, was) && (k !in c.images ==> image.buffer != was.buffer)
    ensures var w := Wrapped(c, capacity, k, image);
            && (was.id !in DeletedBy(c, capacity, k) <==> Cached(w, was))
            && (Cached(w, was) <==> Holds(w, was.buffer))
  {
    var w := Wrapped(c, capacity, k, image);
    var l :| l in c.images && c.images[l] == was;
    if k !in c.images && |c.order| >= capacity && c.order != [] {
      assert c.order[0] in c.order;
      if l == c.order[0] {
        assert forall m :: m in w.images ==> w.images[m].buffer != was.buffer;
      } else {
        assert l in w.images;
      }
    } else {
      assert l in w.images && w.images[l] == was;
    }
  }

  lemma WrappedTraced(used: seq<Image>, c: Cache, deleted: set<nat>, capacity: nat, k: int, image: Image)
    requires WellFormed(c) && WellFormed(Wrapped(c, capacity, k, image)) && Traced(used, c, deleted, capacity)
    requires |c.order| <= capacity && capacity > 0 && (k in c.images <==> Holds(c, image.buffer))
    requires if k in c.images then image == c.images[k] else image.id !in DeletedBy(c, capacity, k)
    requires image.id !in deleted
    ensures Traced(used + [image], Wrapped(c, capacity, k, image), deleted + DeletedBy(c, capacity, k), capacity)
  {
    var w, h := Wrapped(c, capacity, k, image), History(used);
    HistoryNext(used, image);
    WrappedRemembers(h, c, capacity, k, image);
    forall i | 0 <= i < |used + [image]|
      ensures Alive(used + [image], i, w, deleted + DeletedBy(c, capacity, k), capacity)
    {
      SurvivesNext(h, image.buffer, i, capacity);
      if i < |used| {
        RemembersIff(h + [image.buffer], Buffers(w.order, w.images), capacity, h[i]);
        BuffersOfCache(w, h[i]);
        assert Alive(used, i, c, deleted, capacity);
        if used[i].id !in deleted {
          CachedAfterWrap(c, capacity, k, image, used[i]);
        }
      } else {
        assert k in w.images && w.images[k] == image;
      }
    }
  }

  /** A wrap: the cookie and the image returned. */
  datatype Wrapping = Wrapping(cookie: int, image: Image)

  /** A cache, and the images deleted so far. */
  datatype Ledger = Ledger(cache: Cache, deleted: set<nat>)

  const EMPTY := Ledger(Cache([], map[]), {})

  function Next(l: Ledger, w: Wrapping, capacity: nat): Ledger {
    Ledger(Wrapped(l.cache, capacity, w.cookie, w.image), l.deleted + DeletedBy(l.cache, capacity, w.cookie))
  }

  /** A hit returns the cached image, and a miss a new one; the cookie is cached if the buffer is. */
  ghost predicate Proper(l: Ledger, w: Wrapping, capacity: nat) {
    && WellFormed(l.cache) && WellFormed(Next(l, w, capacity).cache) && |l.cache.order| <= capacity && capacity > 0
    && (w.cookie in l.cache.images <==> Holds(l.cache, w.image.buffer)) && w.image.id !in l.deleted
    && if w.cookie in l.cache.images then w.image == l.cache.images[w.cookie]
       else w.image.id !in DeletedBy(l.cache, capacity, w.cookie)
  }

  function After(run: seq<Wrapping>, capacity: nat): Ledger {
    if run == [] then EMPTY else Next(After(run[..|run| - 1], capacity), run[|run| - 1], capacity)
  }

  ghost predicate ProperRun(run: seq<Wrapping>, capacity: nat) {
    run == [] ||
    var front := run[..|run| - 1];
    ProperRun(front, capacity) && Proper(After(front, capacity), run[|run| - 1], capacity)
  }

  lemma ProperNext(run: seq<Wrapping>, w: Wrapping, capacity: nat)
    requires ProperRun(run, capacity) && Proper(After(run, capacity), w, capacity)
    ensures ProperRun(run + [w], capacity) && After(run + [w], capacity) == Next(After(run, capacity), w, capacity)
  {
    assert (run + [w])[..|run|] == run;
  }

  function Images(run: seq<Wrapping>): (images: seq<Image>)
    ensures |images| == |run| && forall i :: 0 <= i < |run| ==> images[i] == run[i].image
  {
    if run == [] then [] else Images(run[..|run| - 1]) + [run[|run| - 1].image]
  }

  lemma {:induction false} RunTraced(run: seq<Wrapping>, capacity: nat)
    requires ProperRun(run, capacity)
    ensures var l := After(run, capacity);
            WellFormed(l.cache) && Traced(Images(run), l.cache, l.deleted, capacity)
  {
    if run != [] {
      var front, w := run[..|run| - 1], run[|run| - 1];
      var l := After(front, capacity);
      RunTraced(front, capacity);
      WrappedTraced(Images(front), l.cache, l.deleted, capacity, w.cookie, w.image);
    }
  }

  /** The image that wrap `i` of a run returned is alive at the end if and only if at every step since fewer
      than `capacity` other buffers had been wrapped after the last wrap of its own. */
  lemma AliveIff(run: seq<Wrapping>, capacity: nat, i: nat)
    requires ProperRun(run, capacity) && i < |run|
    ensures run[i].image.id !in After(run, capacity).deleted <==> Survives(History(Images(run)), i, capacity)
  {
    RunTraced(run, capacity);
    var l := After(run, capacity);
    assert Alive(Images(run), i, l.cache, l.deleted, capacity);
  }

  /** After a run, a buffer is cached if and only if it was wrapped and fewer than `capacity` others were
      wrapped since. */
  lemma CachedIff(run: seq<Wrapping>, capacity: nat, b: nat)
    requires ProperRun(run, capacity)
    ensures Holds(After(run, capacity).cache, b) <==>
            b in History(Images(run)) && |Since(History(Images(run)), b)| < capacity
  {
    RunTraced(run, capacity);
    var c := After(run, capacity).cache;
    RemembersIff(History(Images(run)), Buffers(c.order, c.images), capacity, b);
    BuffersOfCache(c, b);
  }

  /** The image of wrap `i` is alive as the history says. */
  ghost predicate AliveByHistory(run: seq<Wrapping>, i: nat, deleted: set<nat>, capacity: nat)
    requires i < |run|
  {
    run[i].image.id !in deleted <==> Survives(History(Images(run)), i, capacity)
  }

  /** The buffer is cached as the history says. */
  ghost predicate CachedByHistory(run: seq<Wrapping>, b: nat, c: Cache, capacity: nat) {
    Holds(c, b) <==> b in History(Images(run)) && |Since(History(Images(run)), b)| < capacity
  }

  lemma AllAliveByHistory(run: seq<Wrapping>, capacity: nat, deleted: set<nat>)
    requires ProperRun(run, capacity) && After(run, capacity).deleted == deleted
    ensures forall i :: 0 <= i < |run| ==> AliveByHistory(run, i, deleted, capacity)
  {
    forall i | 0 <= i < |run|
      ensures AliveByHistory(run, i, deleted, capacity)
    {
      AliveIff(run, capacity, i);
    }
  }

  lemma AllCachedByHistory(run: seq<Wrapping>, capacity: nat, c: Cache)
    requires ProperRun(run, capacity) && After(run, capacity).cache == c
    ensures forall b: nat :: CachedByHistory(run, b, c, capacity)
  {
    forall b: nat
      ensures CachedByHistory(run, b, c, capacity)
    {
      CachedIff(run, capacity, b);
    }
  }

  // ---------------------------------------------------------------------------------------------
  // The wrapper
  // ---------------------------------------------------------------------------------------------

  class EglImageWrapper {
    const capacity: nat
    const ion: Ion
    var order: seq<int>
    var images: map<int, Image>
    var created: nat
    ghost var deleted: set<nat>
    ghost var run: seq<Wrapping>  // every wrap so far

    constructor (capacity: nat, pick: (nat, set<int>) -> int)
      requires capacity > 0 && PicksUnused(pick)
      ensures Valid() && Tracked() && this.capacity == capacity && View() == Cache([], map[]) && run == [] && fresh(ion)
    {
      this.capacity := capacity;
      ion := new Ion(pick);
      order, images, created, deleted, run := [], map[], 0, {}, [];
    }

    ghost function View(): Cache
      reads this`order, this`images
    {
      Cache(order, images)
    }

    /** The cache and the deleted images are what the wraps so far have led to. */
    ghost predicate Tracked()
      reads this`order, this`images, this`deleted, this`run
    {
      ProperRun(run, capacity) && After(run, capacity) == Ledger(View(), deleted)
    }

    ghost predicate Valid()
      reads this, ion
    {
      && WellFormed(View()) && |order| <= capacity && capacity > 0 && PicksUnused(ion.pick)
      && ion.handles == OneRefEach(images) && Accounted(images, created, deleted)
    }

    /** The eviction callback frees the cookie and deletes the image. */
    method RemoveOldest()
      requires order != [] && order[0] in images
      requires order[0] in ion.handles && ion.handles[order[0]].refs == 1
      modifies this`order, this`images, this`deleted, ion`handles
      ensures View() == Evict(old(View())) && deleted == old(deleted) + {old(images[order[0]]).id}
      ensures ion.handles == old(ion.handles) - {old(order[0])}
    {
      var k := order[0];
      ion.Free(k);
      deleted := deleted + {images[k].id};
      order, images := order[1..], images - {k};
    }

    /** Adds a new image for a cookie that has just been imported. */
    method Put(k: int, buffer: nat) returns (image: Image)
      requires WellFormed(View()) && |order| <= capacity && capacity > 0 && Accounted(images, created, deleted)
      requires PicksUnused(ion.pick)
      requires k !in images && ion.handles == OneRefEach(images)[k := Handle(buffer, 1)]
      requires forall l :: l in images ==> images[l].buffer != buffer
      modifies this`order, this`images, this`created, this`deleted, ion`handles
      ensures Valid() && image == Image(old(created), buffer) && View() == Wrapped(old(View()), capacity, k, image)
      ensures deleted == old(deleted) + DeletedBy(old(View()), capacity, k)
    {
      image := Image(created, buffer);
      if |order| >= capacity {
        EvictKeeps(View());
        EvictAccounts(View(), created, deleted);
        OneRefAfterEvict(View(), k, Handle(buffer, 1));
        RemoveOldest();
      }
      OneRefAfterAdd(View(), k, image);
      AddKeeps(View(), k, image);
      AddAccounts(View(), k, buffer, created, deleted);
      order, images, created := order + [k], images[k := image], created + 1;
    }

    /** A hit: the entry becomes the most recent one and the new reference is dropped. */
    method Hit(k: int) returns (image: Image)
      requires WellFormed(View()) && |order| <= capacity && capacity > 0 && Accounted(images, created, deleted)
      requires PicksUnused(ion.pick)
      requires k in images && ion.handles == OneRefEach(images)[k := Handle(images[k].buffer, 2)]
      modifies this`order, ion`handles
      ensures Valid() && image == images[k] && View() == Touch(old(View()), k)
    {
      TouchKeeps(View(), k);
      image := images[k];
      order := Without(order, k) + [k];
      BackToOneRef(images, k);
      ion.Free(k);
    }

    static lemma BackToOneRef(images: map<int, Image>, k: int)
      requires k in images
      ensures OneRefEach(images)[k := Handle(images[k].buffer, 2)][k := Handle(images[k].buffer, 1)] == OneRefEach(images)
    {
    }

    /** Imports the buffer and looks its cookie up. The image returned wraps the buffer asked for. */
    method WrapImported(buffer: nat) returns (image: Image, ghost cookie: int)
      requires Valid()
      modifies this`order, this`images, this`created, this`deleted, ion
      ensures Valid() && image.buffer == buffer
      ensures View() == Wrapped(old(View()), capacity, cookie, image)
      ensures cookie in images && images[cookie] == image
      ensures cookie in old(images) <==> Holds(old(View()), buffer)
      ensures deleted == old(deleted) + DeletedBy(old(View()), capacity, cookie)
    {
      var k := ion.Import(buffer);
      cookie := k;
      ImportedOnce(images, buffer, k);
      if k in images {
        image := Hit(k);
      } else {
        image := Put(k, buffer);
      }
    }

    /** The import failed: the file descriptor stands for the cookie, and no reference is held. A miss
        then caches an image without a reference, and a hit frees the reference of the entry it finds. */
    method WrapUnimported(buffer: nat, fd: int) returns (image: Image)
      requires Valid()
      modifies this`order, this`images, this`created, this`deleted, ion`handles
      ensures View() == Wrapped(old(View()), capacity, fd, image)
      ensures fd in images && fd !in ion.handles
    {
      if fd in images {
        image := images[fd];
        order := Without(order, fd) + [fd];
        ion.Free(fd);
      } else {
        image := Image(created, buffer);
        if |order| >= capacity {
          EvictAccounts(View(), created, deleted);
          RemoveOldest();
        }
        order, images, created := order + [fd], images[fd := image], created + 1;
      }
    }

    /** Wraps a buffer. Every cookie holds one reference if it is cached and none otherwise, if and only if
        the import succeeds; then the image is the most recent entry and wraps the buffer asked for. */
    method Wrap(buffer: nat, imported: bool, fd: int) returns (image: Image, ghost cookie: int)
      requires Valid()
      modifies this`order, this`images, this`created, this`deleted, ion
      ensures ion.handles == OneRefEach(images) <==> imported
      ensures Valid() <==> imported
      ensures View() == Wrapped(old(View()), capacity, cookie, image)
      ensures imported ==>
                && image.buffer == buffer && cookie in images && images[cookie] == image
                && (cookie in old(images) <==> Holds(old(View()), buffer))
                && deleted == old(deleted) + DeletedBy(old(View()), capacity, cookie)
    {
      if imported {
        image, cookie := WrapImported(buffer);
      } else {
        cookie := fd;
        image := WrapUnimported(buffer, fd);
      }
    }

    /** Wraps the destination, then the source. The destination's image is still there afterwards if
        and only if the cache has room for two or both are the same buffer. */
    method Blit(dst: nat, src: nat) returns (dstImage: Image, srcImage: Image)
      requires Valid() && Tracked()
      modifies this, ion
      ensures Valid() && Tracked() && dstImage.buffer == dst && srcImage.buffer == src
      ensures Images(run) == Images(old(run)) + [dstImage, srcImage] && old(deleted) <= deleted
      ensures srcImage.id !in deleted
      ensures dstImage.id !in deleted <==> capacity >= 2 || dst == src
    {
      ghost var d, s;
      dstImage, d := WrapTracked(dst);
      ghost var gone := deleted;
      srcImage, s := WrapTracked(src);
      OneByOne(Images(old(run)), dstImage, srcImage);
      FirstSurvivesIff(old(View()), capacity, d, dstImage, s, src, gone);
    }

    /** Wraps a buffer and records it. */
    method WrapTracked(buffer: nat) returns (image: Image, ghost cookie: int)
      requires Valid() && Tracked()
      modifies this, ion
      ensures Valid() && Tracked() && image.buffer == buffer && Images(run) == Images(old(run)) + [image]
      ensures View() == Wrapped(old(View()), capacity, cookie, image)
      ensures cookie in images && images[cookie] == image
      ensures cookie in old(images) <==> Holds(old(View()), buffer)
      ensures deleted == old(deleted) + DeletedBy(old(View()), capacity, cookie) && image.id !in deleted
    {
      image, cookie := WrapImported(buffer);
      Track(Ledger(old(View()), old(deleted)), Wrapping(cookie, image));
    }

    /** Records a wrap. */
    ghost method Track(l: Ledger, w: Wrapping)
      requires ProperRun(run, capacity) && After(run, capacity) == l && WellFormed(l.cache)
      requires |l.cache.order| <= capacity && capacity > 0 && WellFormed(View())
      requires View() == Wrapped(l.cache, capacity, w.cookie, w.image)
      requires deleted == l.deleted + DeletedBy(l.cache, capacity, w.cookie) && w.image.id !in deleted
      requires w.cookie in images && images[w.cookie] == w.image
      requires w.cookie in l.cache.images <==> Holds(l.cache, w.image.buffer)
      modifies this`run
      ensures Tracked() && Images(run) == Images(old(run)) + [w.image]
    {
      ProperNext(run, w, capacity);
      run := run + [w];
    }

    /** Closing the wrapper evicts everything: no reference is kept and every image is deleted. */
    method Close()
      requires Valid()
      modifies this, ion
      ensures Valid() && ion.handles == map[] && order == [] && |deleted| == created
    {
      while order != []
        invariant Valid() && created == old(created)
        decreases |order|
      {
        EvictKeeps(View());
        EvictAccounts(View(), created, deleted);
        OneRefAfterRemove(View());
        RemoveOldest();
      }
      assert forall k :: k in images ==> k in order;
      assert images.Keys == {};
    }

    /** Any run of blits. Every image returned wraps the buffer it was asked for. With `gone[i]` the images
        deleted by the end of blit `i`, both images of a blit are alive at its end if and only if there is
        room for two or both buffers are the same. At the end of the run, an image is alive if and only if
        at every step since it was returned fewer than `capacity` other buffers had been wrapped after the
        last wrap of its own; and the buffers cached are those that fewer than `capacity` others were
        wrapped after. */
    method BlitAll(blits: seq<(nat, nat)>) returns (pairs: seq<(Image, Image)>, ghost gone: seq<set<nat>>)
      requires Valid() && Tracked()
      modifies this, ion
      ensures Valid() && Tracked() && |pairs| == |blits| == |gone| && Images(run) == Images(old(run)) + Flat(pairs)
      ensures forall i :: 0 <= i < |blits| ==> BlitWith(blits[i], pairs[i], gone[i])
      ensures forall i :: 0 <= i < |blits| ==> StayGone(gone, i, deleted)
      ensures forall i :: 0 <= i < |run| ==> AliveByHistory(run, i, deleted, capacity)
      ensures forall b: nat :: CachedByHistory(run, b, View(), capacity)
    {
      pairs, gone := BlitEach(blits);
      EachBlit(blits, pairs, gone, deleted);
      AllAliveByHistory(run, capacity, deleted);
      AllCachedByHistory(run, capacity, View());
    }

    method BlitEach(blits: seq<(nat, nat)>) returns (pairs: seq<(Image, Image)>, ghost gone: seq<set<nat>>)
      requires Valid() && Tracked()
      modifies this, ion
      ensures Valid() && Tracked() && BlitsWith(blits, pairs, gone, deleted)
      ensures Images(run) == Images(old(run)) + Flat(pairs)
    {
      pairs, gone := [], [];
      for i := 0 to |blits|
        invariant Valid() && Tracked() && BlitsWith(blits[..i], pairs, gone, deleted)
        invariant Images(run) == Images(old(run)) + Flat(pairs)
      {
        ghost var was := deleted;
        var d, s := Blit(blits[i].0, blits[i].1);
        FlatNext(pairs, (d, s), Images(old(run)));
        BlitsNext(blits[..i], pairs, gone, was, blits[i], (d, s), deleted);
        NextPrefix(blits, i);
        pairs, gone := pairs + [(d, s)], gone + [deleted];
      }
      assert blits[..|blits|] == blits;
    }

    /** What was deleted by the end of blit `i` stays deleted. */
    ghost predicate StayGone(gone: seq<set<nat>>, i: nat, end: set<nat>)
      requires i < |gone|
    {
      gone[i] <= if i + 1 < |gone| then gone[i + 1] else end
    }

    /** Each blit with its images and what was deleted by its end. */
    ghost predicate BlitsWith(blits: seq<(nat, nat)>, pairs: seq<(Image, Image)>, gone: seq<set<nat>>, end: set<nat>) {
      && |blits| == |pairs| == |gone|
      && (blits == [] ||
          var n := |blits| - 1;
          && BlitsWith(blits[..n], pairs[..n], gone[..n], gone[n]) && gone[n] <= end
          && BlitWith(blits[n], pairs[n], gone[n]))
    }

    lemma BlitsNext(blits: seq<(nat, nat)>, pairs: seq<(Image, Image)>, gone: seq<set<nat>>, was: set<nat>,
                    blit: (nat, nat), pair: (Image, Image), end: set<nat>)
      requires BlitsWith(blits, pairs, gone, was) && was <= end && BlitWith(blit, pair, end)
      ensures BlitsWith(blits + [blit], pairs + [pair], gone + [end], end)
    {
      var n := |blits|;
      assert (blits + [blit])[..n] == blits && (pairs + [pair])[..n] == pairs && (gone + [end])[..n] == gone;
    }

    lemma {:induction false} BlitsOf(blits: seq<(nat, nat)>, pairs: seq<(Image, Image)>, gone: seq<set<nat>>,
                                     end: set<nat>, i: nat)
      requires BlitsWith(blits, pairs, gone, end) && i < |blits|
      ensures |pairs| == |blits| == |gone| && BlitWith(blits[i], pairs[i], gone[i])
      ensures StayGone(gone, i, end)
    {
      var n := |blits| - 1;
      if i < n {
        BlitsOf(blits[..n], pairs[..n], gone[..n], gone[n], i);
      }
    }

    lemma EachBlit(blits: seq<(nat, nat)>, pairs: seq<(Image, Image)>, gone: seq<set<nat>>, end: set<nat>)
      requires BlitsWith(blits, pairs, gone, end)
      ensures |pairs| == |blits| == |gone| && forall i :: 0 <= i < |blits| ==> BlitWith(blits[i], pairs[i], gone[i])
      ensures forall i :: 0 <= i < |blits| ==> StayGone(gone, i, end)
    {
      forall i | 0 <= i < |blits|
        ensures BlitWith(blits[i], pairs[i], gone[i]) && StayGone(gone, i, end)
      {
        BlitsOf(blits, pairs, gone, end, i);
      }
    }

    ghost predicate BlitWith(blit: (nat, nat), pair: (Image, Image), gone: set<nat>) {
      && pair.0.buffer == blit.0 && pair.1.buffer == blit.1 && pair.1.id !in gone
      && (pair.0.id !in gone <==> capacity >= 2 || blit.0 == blit.1)
    }
  }

  function Flat(pairs: seq<(Image, Image)>): seq<Image> {
    if pairs == [] then [] else Flat(pairs[..|pairs| - 1]) + [pairs[|pairs| - 1].0, pairs[|pairs| - 1].1]
  }

  lemma FlatNext(pairs: seq<(Image, Image)>, pair: (Image, Image), before: seq<Image>)
    ensures before + Flat(pairs + [pair]) == before + Flat(pairs) + [pair.0, pair.1]
  {
    assert (pairs + [pair])[..|pairs|] == pairs;
  }

  lemma OneByOne(s: seq<Image>, first: Image, second: Image)
    ensures s + [first] + [second] == s + [first, second]
  {
  }

  lemma NextPrefix(blits: seq<(nat, nat)>, i: nat)
    requires i < |blits|
    ensures blits[..i + 1] == blits[..i] + [blits[i]]
  {
  }
}
