/** The gralloc buffer manager: a map from private handles to reference-counted buffers, and the
    allocator service that allocates a batch of buffers for a client.
 */
module BufferManager {
  import opened HandleTable

  datatype Error = NoError | BadBuffer | NoResources | BadDescriptor

  class PrivateHandle {
    var fd: int
    var fdMeta: int
    var id: nat
    const width: nat  // aligned width, reported to clients as the stride

    constructor (fd: int, fdMeta: int, width: nat)
      ensures this.fd == fd && this.fdMeta == fdMeta && this.width == width
    {
      this.fd, this.fdMeta, this.width, id := fd, fdMeta, width, 0;
    }
  }

  class Buffer {
    const handle: PrivateHandle
    var refCount: int
    ghost const main: nat
    ghost const meta: nat

    constructor (handle: PrivateHandle, ghost main: nat, ghost meta: nat)
      ensures this.handle == handle && refCount == 1 && this.main == main && this.meta == meta
    {
      this.handle, refCount := handle, 1;
      this.main, this.meta := main, meta;
    }

    method IncRef()
      modifies this
      ensures refCount == old(refCount) + 1
    {
      refCount := refCount + 1;
    }

    method DecRef() returns (zero: bool)
      modifies this
      ensures refCount == old(refCount) - 1 && (zero <==> refCount == 0)
    {
      refCount := refCount - 1;
      zero := refCount == 0;
    }
  }

  class BufferManager {
    var handlesMap: map<PrivateHandle, Buffer>
    var nextId: nat
    ghost var live: set<nat>
    ghost var leaked: set<nat>
    ghost var freed: seq<nat>
    ghost var next: nat

    constructor ()
      ensures Valid() && View() == Empty()
    {
      handlesMap, nextId := map[], 0;
      live, leaked, freed, next := {}, {}, [], 0;
    }

    ghost function Entries(): map<PrivateHandle, Entry>
      reads this, handlesMap.Values
    {
      map h | h in handlesMap :: Entry(handlesMap[h].refCount, handlesMap[h].main, handlesMap[h].meta)
    }

    /** The table this object implements. */
    ghost function View(): Table<PrivateHandle>
      reads this, handlesMap.Values
    {
      Table(Entries(), live, leaked, freed, next)
    }

    ghost predicate Valid()
      reads this, handlesMap.Values
    {
      forall h :: h in handlesMap ==> handlesMap[h].handle == h
    }

    method RegisterHandle(h: PrivateHandle, ghost main: nat, ghost meta: nat)
      requires h !in handlesMap
      modifies this`handlesMap
      ensures handlesMap.Keys == old(handlesMap.Keys) + {h} && fresh(handlesMap[h])
      ensures handlesMap[h].handle == h && handlesMap[h].refCount == 1
      ensures handlesMap[h].main == main && handlesMap[h].meta == meta
      ensures forall g :: g in old(handlesMap) ==> handlesMap[g] == old(handlesMap[g])
    {
      var buffer := new Buffer(h, main, meta);
      handlesMap := handlesMap[h := buffer];
    }

    /** Obtain the main buffer, then the metadata buffer; a failure of the second returns early. */
    method AcquireMemory(mainOk: bool, metaOk: bool) returns (ok: bool, ghost main: nat, ghost meta: nat)
      modifies this`live, this`leaked, this`next
      ensures ok <==> mainOk && metaOk
      ensures ok ==> main == old(next) && meta == main + 1 && next == main + 2
      ensures ok ==> live == old(live) + {main, meta} && leaked == old(leaked)
      ensures !ok && mainOk ==>
                && live == old(live) + {old(next)} && leaked == old(leaked) + {old(next)}
                && next == old(next) + 1
      ensures !mainOk ==> live == old(live) && leaked == old(leaked) && next == old(next)
    {
      main, meta := next, next + 1;
      if !mainOk {
        return false, main, meta;
      }
      next, live := next + 1, live + {main};
      if !metaOk {
        leaked := leaked + {main};
        return false, main, meta;
      }
      next, live := next + 1, live + {meta};
      ok := true;
    }

    /** The two kernel answers are parameters. When the metadata buffer cannot be had, the main buffer
        is not given back. */
    method AllocateBuffer(width: nat, mainOk: bool, metaOk: bool) returns (error: Error, handle: PrivateHandle?)
      requires Valid()
      modifies this
      ensures Valid()
      ensures error == (if mainOk && metaOk then NoError else NoResources)
      ensures error == NoError <==> handle != null
      ensures handle != null ==>
                && fresh(handle) && handle.width == width && handle.id == nextId == old(nextId) + 1
                && handle in handlesMap && fresh(handlesMap[handle])
                && View() == Step(old(View()), Allocate(handle, true, true))
      ensures handle == null ==>
                && handlesMap == old(handlesMap)
                && View() == if mainOk then LeakMain(old(View())) else old(View())
      ensures forall g :: g in old(handlesMap) ==> g in handlesMap && handlesMap[g] == old(handlesMap[g])
    {
      var ok;
      ghost var main, meta;
      ok, main, meta := AcquireMemory(mainOk, metaOk);
      if !ok {
        return NoResources, null;
      }
      var hnd := new PrivateHandle(0, 0, width);
      nextId := nextId + 1;
      hnd.id := nextId;
      handle := hnd;
      RegisterHandle(hnd, main, meta);
      assert Entries() == old(Entries())[hnd := Entry(1, main, meta)];
      error := NoError;
    }

    method RetainBuffer(hnd: PrivateHandle, valid: bool, mainOk: bool, metaOk: bool) returns (error: Error)
      requires Valid()
      modifies this, if hnd in handlesMap then {handlesMap[hnd]} else {}
      ensures Valid() && nextId == old(nextId)
      ensures error == if hnd in old(handlesMap) || (valid && mainOk && metaOk) then NoError else BadBuffer
      ensures View() == Step(old(View()), Retain(hnd, valid, mainOk, metaOk))
      ensures error == NoError ==> hnd in handlesMap
      ensures hnd in old(handlesMap) ==>
                handlesMap == old(handlesMap) && handlesMap[hnd].refCount == old(handlesMap[hnd].refCount) + 1
      ensures hnd !in old(handlesMap) && error == NoError ==>
                && handlesMap.Keys == old(handlesMap.Keys) + {hnd} && handlesMap[hnd].refCount == 1
                && live == old(live) + {old(next), old(next) + 1}
                && handlesMap[hnd].main == old(next) && handlesMap[hnd].meta == old(next) + 1
    {
      if hnd in handlesMap {
        handlesMap[hnd].IncRef();
        assert Entries() == old(Entries())[hnd := old(Entries()[hnd]).(refs := old(Entries()[hnd].refs) + 1)];
        error := NoError;
      } else {
        error := ImportHandle(hnd, valid, mainOk, metaOk);
      }
    }

    method ImportHandle(hnd: PrivateHandle, valid: bool, mainOk: bool, metaOk: bool) returns (error: Error)
      requires hnd !in handlesMap && Valid()
      modifies this`handlesMap, this`live, this`leaked, this`next
      ensures error == if valid && mainOk && metaOk then NoError else BadBuffer
      ensures View() == if valid then Acquire(old(View()), hnd, mainOk, metaOk) else old(View())
      ensures Valid()
      ensures error == NoError ==>
                && handlesMap.Keys == old(handlesMap.Keys) + {hnd} && handlesMap[hnd].refCount == 1
                && live == old(live) + {old(next), old(next) + 1}
                && handlesMap[hnd].main == old(next) && handlesMap[hnd].meta == old(next) + 1
    {
      if !valid {
        return BadBuffer;
      }
      var ok;
      ghost var main, meta;
      ok, main, meta := AcquireMemory(mainOk, metaOk);
      if !ok {
        return BadBuffer;
      }
      RegisterHandle(hnd, main, meta);
      assert Entries() == old(Entries())[hnd := Entry(1, main, meta)];
      error := NoError;
    }

    method ReleaseBuffer(hnd: PrivateHandle, valid: bool, unmapOk: bool, metaUnmapOk: bool) returns (error: Error)
      requires Valid()
      modifies this, hnd, if hnd in handlesMap then {handlesMap[hnd]} else {}
      ensures Valid() && nextId == old(nextId)
      ensures error == if hnd in old(handlesMap) then NoError else BadBuffer
      ensures View() == Step(old(View()), Release(hnd, valid, unmapOk))
      ensures forall g :: g in handlesMap ==> g in old(handlesMap) && handlesMap[g] == old(handlesMap[g])
    {
      if hnd !in handlesMap {
        return BadBuffer;
      }
      var buf := handlesMap[hnd];
      var zero := buf.DecRef();
      if zero {
        handlesMap := handlesMap - {hnd};
        assert Entries() == old(Entries()) - {hnd};
        var _ := FreeBuffer(buf, hnd, valid, unmapOk, metaUnmapOk);
      } else {
        assert Entries() == old(Entries())[hnd := old(Entries()[hnd]).(refs := old(Entries()[hnd].refs) - 1)];
      }
      error := NoError;
    }

    /** Freeing closes a buffer even if it cannot be unmapped, but the first failure ends the call; only a
        complete free takes the descriptors out of the handle. The caller ignores the result. */
    method FreeBuffer(buf: Buffer, hnd: PrivateHandle, valid: bool, unmapOk: bool, metaUnmapOk: bool) returns (error: Error)
      modifies hnd, this`live, this`leaked, this`freed
      ensures View() == Free(old(View()), Entry(buf.refCount, buf.main, buf.meta), valid, unmapOk)
      ensures error == if valid && unmapOk && metaUnmapOk then NoError else BadBuffer
      ensures if error == NoError then hnd.fd == hnd.fdMeta == -1
              else hnd.fd == old(hnd.fd) && hnd.fdMeta == old(hnd.fdMeta)
    {
      if !valid {
        leaked := leaked + {buf.main, buf.meta};
        return BadBuffer;
      }
      live, freed := live - {buf.main}, freed + [buf.main];
      if !unmapOk {
        leaked := leaked + {buf.meta};
        return BadBuffer;
      }
      live, freed := live - {buf.meta}, freed + [buf.meta];
      assert old(freed) + [buf.main] + [buf.meta] == old(freed) + [buf.main, buf.meta];
      assert old(live) - {buf.main} - {buf.meta} == old(live) - {buf.main, buf.meta};
      if !metaUnmapOk {
        return BadBuffer;
      }
      hnd.fd, hnd.fdMeta := -1, -1;
      error := NoError;
    }
  }

  /** The allocator service. */
  class QtiAllocator {
    const manager: BufferManager

    constructor (manager: BufferManager)
      ensures this.manager == manager
    {
      this.manager := manager;
    }

    /** Allocates up to `count` buffers, reports them to the client and releases its own references.
        For every count and every index at which allocation first fails, the handle table is left
        exactly as it was: the `created` buffers were each registered and released once, and nothing else
        stays live than the main buffer of an attempt whose metadata buffer could not be had. */
    method Allocate(descriptorOk: bool, count: nat, width: nat, mainOk: nat -> bool, metaOk: nat -> bool)
      returns (error: Error, stride: nat, reported: seq<PrivateHandle>, ghost created: nat)
      requires manager.Valid() && Inv(manager.View())
      modifies manager
      ensures manager.Valid() && Inv(manager.View())
      ensures !descriptorOk ==> error == BadDescriptor && created == 0
      ensures descriptorOk ==>
                && created <= count && (forall i: nat :: i < created ==> mainOk(i) && metaOk(i))
                && (created == count ==> error == NoError)
                && (created < count ==> error == NoResources && !(mainOk(created) && metaOk(created)))
      ensures |reported| == (if error == NoError then created else 0)
      ensures forall b :: b in reported ==> fresh(b)
      ensures stride == if reported == [] then 0 else width
      ensures manager.View().entries == old(manager.View().entries)
      ensures |manager.freed| == |old(manager.freed)| + 2 * created
      ensures manager.leaked == old(manager.leaked)
                                + Lost(descriptorOk && created < count && mainOk(created), created, old(manager.next))
      ensures manager.live == old(manager.live)
                              + Lost(descriptorOk && created < count && mainOk(created), created, old(manager.next))
    {
      created, reported, stride := 0, [], 0;
      if !descriptorOk {
        return BadDescriptor, 0, [], 0;
      }
      var buffers;
      error, stride, buffers := AllocateAndRelease(count, width, mainOk, metaOk);
      created := |buffers|;
      if error == NoError {
        reported := buffers;
      }
      BatchRestores(old(manager.View()), buffers, created < count && mainOk(created));
    }

    method AllocateAndRelease(count: nat, width: nat, mainOk: nat -> bool, metaOk: nat -> bool)
      returns (error: Error, stride: nat, buffers: seq<PrivateHandle>)
      requires manager.Valid()
      modifies manager
      ensures manager.Valid()
      ensures |buffers| <= count && forall i: nat :: i < |buffers| ==> mainOk(i) && metaOk(i)
      ensures error == if |buffers| == count then NoError else NoResources
      ensures |buffers| < count ==> !(mainOk(|buffers|) && metaOk(|buffers|))
      ensures stride == if error == NoError && |buffers| > 0 then width else 0
      ensures Distinct(buffers) && forall b :: b in buffers ==> fresh(b)
      ensures manager.View() == Batch(old(manager.View()), buffers, |buffers| < count && mainOk(|buffers|))
    {
      ghost var made;
      error, buffers, made := AllocateEach(count, width, mainOk, metaOk);
      stride := 0;
      if error == NoError && |buffers| > 0 {
        stride := buffers[0].width;
      }
      ReleaseEach(buffers, made);
    }

    /** The main buffer of the attempt that failed, if it had one. */
    static ghost function Lost(leak: bool, created: nat, next: nat): set<nat> {
      if leak then {next + 2 * created} else {}
    }

    /** The allocation loop: it stops at the first failure. */
    method AllocateEach(count: nat, width: nat, mainOk: nat -> bool, metaOk: nat -> bool)
      returns (error: Error, buffers: seq<PrivateHandle>, ghost made: set<object>)
      requires manager.Valid()
      modifies manager
      ensures manager.Valid()
      ensures |buffers| <= count && forall i: nat :: i < |buffers| ==> mainOk(i) && metaOk(i)
      ensures error == if |buffers| == count then NoError else NoResources
      ensures |buffers| < count ==> !(mainOk(|buffers|) && metaOk(|buffers|))
      ensures Registered(buffers, width) && Distinct(buffers)
      ensures fresh(made) && forall b :: b in buffers ==> b in made && manager.handlesMap[b] in made
      ensures var t := AllocateAll(old(manager.View()), buffers);
              manager.View() == if |buffers| < count && mainOk(|buffers|) then LeakMain(t) else t
    {
      error, buffers, made := NoError, [], {};
      var i := 0;
      while i < count
        invariant i <= count && |buffers| == i && error == NoError
        invariant manager.Valid()
        invariant forall k: nat :: k < i ==> mainOk(k) && metaOk(k)
        invariant Registered(buffers, width) && Distinct(buffers)
        invariant fresh(made) && forall b :: b in buffers ==> b in made && manager.handlesMap[b] in made
        invariant manager.View() == AllocateAll(old(manager.View()), buffers)
      {
        var more;
        error, more, made := AllocateNext(width, mainOk(i), metaOk(i), old(manager.View()), buffers, made);
        if error != NoError {
          return;
        }
        buffers := more;
        i := i + 1;
      }
    }

    /** One more buffer, or the failure that ends the loop. */
    method AllocateNext(width: nat, mainOk: bool, metaOk: bool, ghost start: Table<PrivateHandle>,
                        buffers: seq<PrivateHandle>, ghost made: set<object>)
      returns (error: Error, more: seq<PrivateHandle>, ghost made': set<object>)
      requires manager.Valid() && Registered(buffers, width) && Distinct(buffers)
      requires forall b :: b in buffers ==> b in made && manager.handlesMap[b] in made
      requires manager.View() == AllocateAll(start, buffers)
      modifies manager
      ensures manager.Valid() && error == if mainOk && metaOk then NoError else NoResources
      ensures Registered(more, width) && Distinct(more) && |more| == |buffers| + if error == NoError then 1 else 0
      ensures made <= made' && fresh(made' - made)
      ensures forall b :: b in more ==> b in made' && manager.handlesMap[b] in made'
      ensures error == NoError ==> manager.View() == AllocateAll(start, more)
      ensures error != NoError ==> more == buffers
      ensures error != NoError ==>
                manager.View() == if mainOk then LeakMain(AllocateAll(start, buffers)) else AllocateAll(start, buffers)
    {
      var handle;
      more, made' := buffers, made;
      ghost var known := manager.handlesMap.Keys;
      error, handle := manager.AllocateBuffer(width, mainOk, metaOk);
      if handle != null {
        assert handle !in known;
        AllocateAllSnoc(start, buffers, handle);
        more, made' := buffers + [handle], made + {handle, manager.handlesMap[handle]};
      }
    }

    ghost predicate Registered(buffers: seq<PrivateHandle>, width: nat)
      reads manager
    {
      forall b :: b in buffers ==> b in manager.handlesMap && b.width == width
    }

    /** The release loop. */
    method ReleaseEach(buffers: seq<PrivateHandle>, ghost made: set<object>)
      requires manager.Valid() && forall b :: b in buffers ==> b in manager.handlesMap
      requires forall b :: b in buffers ==> b in made && manager.handlesMap[b] in made
      modifies manager, made
      ensures manager.Valid()
      ensures manager.View() == ReleaseAll(old(manager.View()), buffers)
    {
      for i := 0 to |buffers|
        invariant manager.Valid()
        invariant forall g :: g in manager.handlesMap ==>
                                g in old(manager.handlesMap) && manager.handlesMap[g] == old(manager.handlesMap[g])
        invariant manager.View() == ReleaseAll(old(manager.View()), buffers[..i])
      {
        var _ := manager.ReleaseBuffer(buffers[i], true, true, true);
        assert buffers[..i + 1] == buffers[..i] + [buffers[i]];
        ReleaseAllSnoc(old(manager.View()), buffers[..i], buffers[i]);
      }
      assert buffers[..|buffers|] == buffers;
    }
  }
}
