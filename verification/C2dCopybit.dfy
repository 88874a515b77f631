/** The C2D copybit context, shared by the client and the cleanup thread: its counts, its blit list and the
    table of GPU addresses mapped inside copybit. Every method refines a step of `C2dBlits`.

    Every section that the source runs under the lock, and a direct finish, is one method. A mapping yields
    address 0 when it fails.
 */
module C2dCopybit {
  import opened C2dBlits

  datatype Status = Success | Invalid | Failure

  // ---------------------------------------------------------------------------------------------
  // Slot tables as values
  // ---------------------------------------------------------------------------------------------

  /** How many slots are taken. */
  function Used(slots: seq<nat>): (u: nat)
    ensures u <= |slots|
  {
    if slots == [] then 0
    else
      var n := |slots| - 1;
      Used(slots[..n]) + if slots[n] == 0 then 0 else 1
  }

  lemma {:induction false} UsedStore(slots: seq<nat>, i: nat, addr: nat)
    requires i < |slots| && slots[i] == 0 && addr != 0
    ensures Used(slots[i := addr]) == Used(slots) + 1
  {
    var n := |slots| - 1;
    StoreFront(slots, i, addr);
    if i < n {
      UsedStore(slots[..n], i, addr);
    }
  }

  lemma StoreFront(slots: seq<nat>, i: nat, addr: nat)
    requires i < |slots|
    ensures slots[i := addr][..|slots| - 1] ==
            if i == |slots| - 1 then slots[..|slots| - 1] else slots[..|slots| - 1][i := addr]
  {
  }

  predicate AllFree(slots: seq<nat>) {
    forall i :: 0 <= i < |slots| ==> slots[i] == 0
  }

  lemma {:induction false} UsedByNone(slots: seq<nat>)
    requires AllFree(slots)
    ensures Used(slots) == 0
  {
    if slots != [] {
      UsedByNone(slots[..|slots| - 1]);
    }
  }

  /** The addresses in the table are those held. */
  ghost predicate Holding(slots: seq<nat>, held: multiset<nat>) {
    Used(slots) == |held| && forall addr: nat :: addr != 0 ==> multiset(slots)[addr] == held[addr]
  }

  lemma NothingHeld(slots: seq<nat>)
    requires Holding(slots, multiset{})
    ensures AllFree(slots)
  {
    forall i | 0 <= i < |slots|
      ensures slots[i] == 0
    {
      assert slots[i] in multiset(slots);
    }
  }

  lemma HoldingPut(before: seq<nat>, after: seq<nat>, index: int, held: multiset<nat>)
    requires Holding(before, held) && PutAt(before, after, index) && index != -1
    ensures Holding(after, held + multiset{after[index]})
  {
    UsedStore(before, index, after[index]);
  }

  /** Each mapping made was undone once or is in one slot, and nothing else was undone. */
  ghost predicate Balance(mapped: multiset<nat>, unmapped: multiset<nat>, slots: seq<nat>) {
    forall addr: nat :: addr != 0 ==> mapped[addr] == unmapped[addr] + multiset(slots)[addr]
  }

  /** `after` is `before` with one more address, at `index`; or nothing changed and `index` is -1. */
  predicate PutAt(before: seq<nat>, after: seq<nat>, index: int) {
    if index == -1 then after == before
    else
      && |after| == |before| && 0 <= index < |before| && before[index] == 0 && after[index] != 0
      && after == before[index := after[index]]
  }

  /** The table after the unmapping of one index. */
  function Dropped(slots: seq<nat>, index: int): seq<nat>
    requires index == -1 || 0 <= index < |slots|
  {
    if index == -1 then slots else slots[index := 0]
  }

  lemma DropPut(before: seq<nat>, after: seq<nat>, index: int)
    requires PutAt(before, after, index)
    ensures Dropped(after, index) == before
  {
  }

  lemma DropFree(base: seq<nat>, mid: seq<nat>, first: int, second: int)
    requires PutAt(base, mid, first) && (second == -1 || (0 <= second < |mid| && mid[second] == 0))
    ensures Dropped(Dropped(mid, first), second) == base
  {
    DropPut(base, mid, first);
  }

  /** Undoing the older of two mappings first gives the same table. */
  lemma DropBothPut(base: seq<nat>, mid: seq<nat>, after: seq<nat>, first: int, second: int)
    requires PutAt(base, mid, first) && PutAt(mid, after, second)
    ensures Dropped(Dropped(after, first), second) == base
  {
    DropPut(base, mid, first);
    DropPut(mid, after, second);
    if first != -1 && second != -1 {
      assert first != second;
      assert after[first := 0][second := 0] == after[second := 0][first := 0];
    }
  }

  lemma FreeTable(mapped: multiset<nat>, unmapped: multiset<nat>, slots: seq<nat>)
    requires AllFree(slots) && Balance(mapped, unmapped, slots)
    ensures Holding(slots, multiset{}) && Balance(mapped, unmapped, [])
  {
    UsedByNone(slots);
    forall addr: nat | addr != 0
      ensures mapped[addr] == unmapped[addr]
    {
      assert addr !in slots;
    }
  }

  /** A table with fewer slots taken than it has holds a free one. */
  lemma {:induction false} FreeSlotExists(slots: seq<nat>)
    requires Used(slots) < |slots|
    ensures 0 in slots
  {
    var n := |slots| - 1;
    if slots[n] != 0 {
      FreeSlotExists(slots[..n]);
    }
  }

  /** The fields of a context. */
  datatype Fields = Fields(rgb: nat, yuv2: nat, yuv3: nat, list: nat, mapped: bool, base: nat, kind: SurfaceType,
                           waiting: bool, draws: nat, blits: nat, clips: nat)

  function FieldsOf(v: State): Fields {
    Fields(|v.owners.rgb|, |v.owners.yuv2|, 0, |v.list|, v.target.mapped, v.target.base, v.target.kind, v.waiting,
           |v.log|, v.blits, v.clips)
  }

  /** The templates and the list are within bounds, and no more is mapped than surfaces are in use: the
      templates, and a destination that counts as mapped. */
  predicate RoomIn(v: State) {
    && |v.owners.rgb| <= MAX_RGB && |v.owners.yuv2| <= MAX_YUV2 && |v.list| <= MAX_BLITS
    && |v.held| <= |v.owners.rgb| + |v.owners.yuv2| + if v.target.mapped then 1 else 0
  }

  lemma FailedFields(v: State, r: Request)
    requires RoomIn(v) && (v.target.mapped || MapsTarget(r))
    ensures var w := v.(target := FailedTarget(v.target, r));
            RoomIn(w) && w.list == TargetMapped(v, r).list && FieldsOf(w) == FieldsOf(TargetMapped(v, r))
  {
  }

  function OneMore(f: Fields, kind: SurfaceType): Fields {
    if kind.RgbSurface? then f.(rgb := f.rgb + 1, blits := f.blits + 1)
    else f.(yuv2 := f.yuv2 + 1, blits := f.blits + 1)
  }

  lemma PreparedFields(v: State, r: Request)
    requires RoomIn(TargetMapped(v, r)) && |v.owners.rgb| < MAX_RGB && |v.owners.yuv2| < MAX_YUV2
    ensures var w, t := Prepared(v, r), TargetMapped(v, r);
            RoomIn(w) && w.list == t.list && FieldsOf(w) == OneMore(FieldsOf(t), TypeOf(r.source.format))
  {
  }

  lemma ClearedFields(v: State, buf: Image, a: Answers)
    requires RoomIn(v) && !v.target.mapped && Mappable(buf, a)
    ensures var w := Cleared(v, buf, a);
            RoomIn(w) && w.list == v.list && FieldsOf(w) == FieldsOf(v).(mapped := true, base := buf.base)
  {
  }

  lemma MappedFields(v: State, r: Request)
    requires RoomIn(v) && !v.target.mapped
    ensures var w := TargetMapped(v, r);
            RoomIn(w) && w.list == v.list && FieldsOf(w) == FieldsOf(v).(mapped := true, base := r.target.base)
  {
  }

  /** The destination counts as mapped for a stretch if it did before and nothing had to be drawn first. */
  lemma MappedBefore(v: State, c: Call, ok: nat -> bool)
    requires c.Stretch? && RoomIn(v)
    ensures BeforeOf(v, c, ok).target.mapped <==>
            v.target.mapped && HasRoom(v) && (v.target.kind == RgbSurface <==> c.dst.format.Rgb?)
  {
    SelectedHasRoom(v, TypeOf(c.dst.format), ok);
  }

  /** An accepted stretch leaves an empty list if it is drawn at once, and one that is not otherwise. */
  lemma SucceedsAtOnceIff(v: State, c: Call, ok: nat -> bool)
    requires c.Stretch? && WellFormed(c)
    ensures !Refused(c.dst, c.src) && Accepted(RequestOf(c), BeforeOf(v, c, ok).target.mapped) ==>
              && (!c.dst.format.Rgb? || Misaligned(c.src) ==> Apply(v, c, ok).list == [])
              && (c.dst.format.Rgb? && !Misaligned(c.src) && c.count > 0 ==> Apply(v, c, ok).list != [])
  {
    if !Refused(c.dst, c.src) && Accepted(RequestOf(c), BeforeOf(v, c, ok).target.mapped) && c.count > 0 {
      DrawnAtOnceIff(v, c, ok);
    }
  }

  // ---------------------------------------------------------------------------------------------
  // The context
  // ---------------------------------------------------------------------------------------------

  class Context {
    const slots: array<nat>
    const blitList: array<Object>
    var rgbCount: nat
    var yuv2Count: nat
    var yuv3Count: nat
    var blitCount: nat
    var dstMapped: bool
    var dstBase: nat
    var dstType: SurfaceType
    var waitTimestamp: bool
    var draws: nat                     // draws, blits and clips so far, as numbers for them
    var blits: nat
    var clips: nat
    ghost var mapped: multiset<nat>    // every address ever mapped
    ghost var unmapped: multiset<nat>  // every address ever unmapped
    ghost var table: seq<nat>          // the slots
    ghost var state: State             // what the fields and the past calls amount to

    constructor ()
      ensures Valid() && state == Start() && mapped == multiset{} && fresh(slots) && fresh(blitList)
    {
      slots := new nat[MAX_SURFACES](_ => 0);
      blitList := new Object[MAX_BLITS](_ => Object(RgbSurface, 0, 0, 0, 0, 0));
      rgbCount, yuv2Count, yuv3Count, blitCount := 0, 0, 0, 0;
      dstMapped, dstBase, dstType, waitTimestamp := false, 0, RgbSurface, false;
      draws, blits, clips := 0, 0, 0;
      mapped, unmapped, state := multiset{}, multiset{}, Start();
      table := seq(MAX_SURFACES, _ => 0);
      new;
      FreeTable(mapped, unmapped, table);
    }

    ghost predicate Shape() {
      slots.Length == MAX_SURFACES && blitList.Length == MAX_BLITS
    }

    ghost predicate Balanced()
      reads this`mapped, this`unmapped, this`table, slots
    {
      slots[..] == table && Balance(mapped, unmapped, table)
    }

    function Values(): Fields
      reads this
    {
      Fields(rgbCount, yuv2Count, yuv3Count, blitCount, dstMapped, dstBase, dstType, waitTimestamp, draws, blits, clips)
    }

    ghost predicate Listed()
      reads this, blitList
    {
      blitCount <= blitList.Length && blitList[..blitCount] == state.list
    }

    ghost predicate Valid()
      reads this, slots, blitList
    {
      Shape() && Balanced() && Values() == FieldsOf(state) && Listed() && Holding(table, state.held) && RoomIn(state)
    }

    predicate LimitReached(newType: SurfaceType)
      reads this
    {
      || rgbCount == MAX_RGB || yuv2Count == MAX_YUV2 || yuv3Count == MAX_YUV2
      || blitCount == MAX_BLITS || dstType != newType
    }

    /** Finds a free slot, maps, and remembers the address; 0 on any failure. */
    method GetGpuAddr(handle: Handle, addr: nat) returns (got: nat, index: int)
      requires Shape() && Balanced() && handle.Handle?
      modifies slots, this`table, this`mapped
      ensures Balanced()
      ensures got == if handle.ion && 0 in old(table) then addr else 0
      ensures got == 0 ==> index == -1 && table == old(table)
      ensures got != 0 ==> PutAt(old(table), table, index) && index != -1 && table[index] == addr
    {
      got, index := 0, -1;
      if !handle.ion {
        return;
      }
      var free := 0;
      while free < slots.Length && slots[free] != 0
        invariant free <= slots.Length
        invariant 0 !in table[..free]
      {
        free := free + 1;
      }
      if free < slots.Length && addr != 0 {
        mapped := mapped + multiset{addr};
        slots[free] := addr;
        table := table[free := addr];
        got, index := addr, free;
      }
    }

    method Unmap(index: int)
      requires Shape() && Balanced() && (index == -1 || 0 <= index < slots.Length)
      modifies slots, this`table, this`unmapped
      ensures Balanced()
      ensures table == Dropped(old(table), index)
      ensures index == -1 || old(table[index]) == 0 ==> table == old(table)
    {
      if index != -1 && slots[index] != 0 {
        unmapped := unmapped + multiset{slots[index]};
        slots[index] := 0;
        table := table[index := 0];
      }
    }

    /** Makes a surface of an image. A failing call holds no mapping. */
    method SetImage(image: Image, a: Answers) returns (ok: bool, index: int)
      requires Shape() && Balanced()
      modifies slots, this`table, this`mapped, this`unmapped
      ensures Balanced() && (index == -1 || 0 <= index < slots.Length)
      ensures ok <==> Mappable(image, a) && (image.handle.gpuAddr == 0 ==> 0 in old(table))
      ensures !ok ==> table == old(table) && (index != -1 ==> table[index] == 0)
      ensures ok ==> PutAt(old(table), table, index) && (index == -1 <==> image.handle.gpuAddr != 0)
      ensures ok && index != -1 ==> table[index] == a.addr
    {
      ok, index := false, -1;
      if image.format.Other? || image.handle.NoHandle? {
        return;
      }
      if image.handle.gpuAddr == 0 {
        var got;
        got, index := GetGpuAddr(image.handle, a.addr);
        if got == 0 {
          return;
        }
      }
      ok := a.updateOk;
      if !ok {
        Unmap(index);
        assert index != -1 ==> old(table)[index := a.addr][index := 0] == old(table);
      }
    }

    method UnmapAll()
      requires Shape() && Balanced()
      modifies this`unmapped, this`table, slots
      ensures Balanced() && Holding(table, multiset{}) && Balance(mapped, unmapped, [])
    {
      UnmapEach();
      FreeTable(mapped, unmapped, table);
    }

    method UnmapEach()
      requires Shape() && Balanced()
      modifies this`unmapped, this`table, slots
      ensures Balanced() && AllFree(table)
    {
      var i := 0;
      while i < MAX_SURFACES
        invariant i <= MAX_SURFACES && Balanced()
        invariant forall k :: 0 <= k < i ==> table[k] == 0
      {
        Unmap(i);
        i := i + 1;
      }
    }

    /** Unmaps every slot and resets the counts: the common end of a finish and of the cleanup. */
    method Reset()
      requires Valid()
      modifies this`rgbCount, this`yuv2Count, this`yuv3Count, this`blitCount, this`dstMapped, this`dstBase
      modifies this`state, this`unmapped, this`table, slots
      ensures Valid() && state == Emptied(old(state)) && Balance(mapped, unmapped, [])
    {
      UnmapAll();
      ResetCounts();
      state := Emptied(state);
    }

    method ResetCounts()
      modifies this`rgbCount, this`yuv2Count, this`yuv3Count, this`blitCount, this`dstMapped, this`dstBase
      ensures Values() == old(Values()).(rgb := 0, yuv2 := 0, yuv3 := 0, list := 0, mapped := false, base := 0)
    {
      rgbCount, yuv2Count, yuv3Count, blitCount := 0, 0, 0, 0;
      dstMapped, dstBase := false, 0;
    }

    /** Hands the list to the driver, unless it is empty. */
    method MsmCopybit(ok: nat -> bool) returns (status: Status)
      requires Valid()
      modifies this`state, this`draws
      ensures Valid() && state == Drawn(old(state), ok)
      ensures status == if DrawOk(old(state), ok) then Success else Failure
    {
      status := Success;
      if blitCount != 0 {
        status := if ok(draws) then Success else Failure;
        draws, state := draws + 1, Drawn(state, ok);
      }
    }

    method Finish(ok: nat -> bool) returns (status: Status)
      requires Valid()
      modifies this, slots
      ensures Valid() && state == Finished(old(state), ok) && Balance(mapped, unmapped, [])
      ensures status == if DrawOk(old(state), ok) then Success else Failure
    {
      status := MsmCopybit(ok);
      Reset();
    }

    /** Hands the list to the driver and asks the cleanup thread to wait for it. */
    method FlushGetFence(ok: nat -> bool, flushOk: bool, fenceOk: bool) returns (status: Status)
      requires Valid()
      modifies this`waitTimestamp, this`state, this`draws
      ensures Valid() && state == Flushed(old(state), ok, flushOk, fenceOk)
      ensures status == if DrawOk(old(state), ok) && flushOk && fenceOk then Success else Failure
    {
      status := MsmCopybit(ok);
      if status == Success {
        state := state.(flushed := |state.list|);
      }
      if !flushOk {
        return Failure;
      }
      if !fenceOk {
        status := Failure;
      }
      if status == Success {
        waitTimestamp, state := true, state.(waiting := true);
      }
    }

    /** One round of the cleanup thread. */
    method Cleanup()
      requires Valid()
      modifies this, slots
      ensures Valid() && state == Cleaned(old(state))
      ensures old(waitTimestamp) ==> Balance(mapped, unmapped, [])
    {
      if waitTimestamp {
        waitTimestamp, state := false, state.(waiting := false);
        Reset();
      }
    }

    /** The destination counts as mapped from now on. */
    method TargetIs(base: nat, ghost w: State)
      requires Shape() && Balanced() && Values() == FieldsOf(state) && Listed() && Holding(table, w.held) && RoomIn(w)
      requires w.list == state.list && FieldsOf(w) == FieldsOf(state).(mapped := true, base := base)
      modifies this`dstMapped, this`dstBase, this`state
      ensures Valid() && state == w
    {
      dstMapped, dstBase, state := true, base, w;
    }

    /** Clears the destination, mapping it when this is the first call of a composition. */
    method Clear(buf: Image, a: Answers, fillOk: bool) returns (status: Status)
      requires Valid()
      modifies this`mapped, this`unmapped, this`dstMapped, this`dstBase, this`state, this`table, slots
      ensures Valid() && state == Cleared(old(state), buf, a)
      ensures status == Success <==> old(dstMapped) || (Mappable(buf, a) && fillOk)
    {
      status := Success;
      if !dstMapped {
        var ok, index := MapImage(buf, a, state.held);
        if !ok {
          Unmap(index);
          return Failure;
        }
        ClearedFields(state, buf, a);
        TargetIs(buf.base, Cleared(state, buf, a));
        status := if fillOk then Success else Failure;
      }
    }

    /** Draws what is queued when a template or the blit list is used up or the target changes. */
    method SelectTarget(newType: SurfaceType, ok: nat -> bool)
      requires Valid()
      modifies this, slots
      ensures Valid() && state == Selected(old(state), newType, ok) && !LimitReached(newType) && dstType == newType
    {
      if LimitReached(newType) {
        var _ := Finish(ok);
      }
      dstType, state := newType, state.(target := state.target.(kind := newType));
    }

    /** Makes a surface; a slot is free for it. */
    method MapImage(image: Image, a: Answers, ghost held: multiset<nat>) returns (ok: bool, index: int)
      requires Shape() && Balanced() && Holding(table, held) && |held| < MAX_SURFACES
      modifies this`mapped, this`unmapped, this`table, slots
      ensures Balanced() && (ok <==> Mappable(image, a)) && (index == -1 || 0 <= index < slots.Length)
      ensures !ok ==> table == old(table) && (index != -1 ==> table[index] == 0)
      ensures ok ==> PutAt(old(table), table, index) && (index == -1 <==> image.handle.gpuAddr != 0)
      ensures Holding(table, if ok then held + Gained(image, a) else held)
    {
      FreeSlotExists(table);
      ok, index := SetImage(image, a);
      if ok && index != -1 {
        HoldingPut(old(table), table, index, held);
      }
    }

    /** Maps the destination unless it counts as mapped, be it another one. */
    method MapTarget(r: Request) returns (ok: bool, index: int)
      requires Valid() && !LimitReached(dstType)
      modifies this`mapped, this`unmapped, this`dstMapped, this`dstBase, this`state, this`table, slots
      ensures Valid() && (ok <==> old(dstMapped) || Mappable(r.target, r.dst))
      ensures state == if ok then TargetMapped(old(state), r) else old(state)
      ensures PutAt(old(table), table, index) && (!ok || old(dstMapped) ==> index == -1)
      ensures ok && !old(dstMapped) ==> (index == -1 <==> r.target.handle.gpuAddr != 0)
    {
      ok, index := true, -1;
      if !dstMapped {
        ok, index := MapImage(r.target, r.dst, state.held);
        if !ok {
          Unmap(index);
          return false, -1;
        }
        MappedFields(state, r);
        TargetIs(r.target.base, TargetMapped(state, r));
      }
    }

    method DropBoth(dstIndex: int, srcIndex: int)
      requires Shape() && Balanced() && (dstIndex == -1 || 0 <= dstIndex < slots.Length)
      requires srcIndex == -1 || 0 <= srcIndex < slots.Length
      modifies slots, this`table, this`unmapped
      ensures Balanced() && table == Dropped(Dropped(old(table), dstIndex), srcIndex)
    {
      Unmap(dstIndex);
      Unmap(srcIndex);
    }

    /** Maps the source. Every failing exit also unmaps the destination if this stretch had mapped it at
        `dstIndex`, and so restores the table `base`. */
    method MapSource(r: Request, dstIndex: int, ghost base: seq<nat>, ghost held: multiset<nat>)
      returns (status: Status, index: int)
      requires Shape() && Balanced() && PutAt(base, table, dstIndex)
      requires Holding(table, held) && |held| < MAX_SURFACES
      modifies this`mapped, this`unmapped, this`table, slots
      ensures Balanced()
      ensures status == if r.source.format.Other? then Invalid
                        else if r.sourceReady && Mappable(r.source, r.src) && r.visible then Success else Failure
      ensures index == -1 || 0 <= index < slots.Length
      ensures status != Success ==> table == base
      ensures status == Success ==> Holding(table, held + Gained(r.source, r.src))
    {
      index := -1;
      DropPut(base, table, dstIndex);
      if r.source.format.Other? {
        Unmap(dstIndex);
        return Invalid, index;
      }
      if !r.sourceReady {
        Unmap(dstIndex);
        return Failure, index;
      }
      var ok;
      ok, index := MapImage(r.source, r.src, held);
      if !ok {
        DropFree(base, table, dstIndex, index);
        DropBoth(dstIndex, index);
        return Failure, index;
      }
      if !r.visible {
        DropBothPut(base, old(table), table, dstIndex, index);
        DropBoth(dstIndex, index);
        return Failure, index;
      }
      status := Success;
    }

    /** Everything but the slot table is as in the state, and that holds the source as well. */
    ghost predicate SourceMapped(r: Request)
      reads this, slots, blitList
    {
      && Shape() && Balanced() && Values() == FieldsOf(state) && Listed() && RoomIn(state)
      && Holding(table, state.held + Gained(r.source, r.src))
    }

    /** Maps destination and source. A failure leaves the table as it was, and the destination counted as
        mapped if it could be. */
    method MapBoth(r: Request) returns (status: Status, dstIndex: int, srcIndex: int)
      requires Valid() && !LimitReached(dstType)
      modifies this`mapped, this`unmapped, this`dstMapped, this`dstBase, this`state, this`table, slots
      ensures status == Success <==> Accepted(r, old(dstMapped))
      ensures status != Success ==> Valid() && state == old(state).(target := FailedTarget(old(state).target, r))
      ensures status == Success ==> SourceMapped(r) && state == TargetMapped(old(state), r)
      ensures dstIndex == -1 || 0 <= dstIndex < slots.Length
      ensures srcIndex == -1 || 0 <= srcIndex < slots.Length
    {
      dstIndex, srcIndex := -1, -1;
      if !r.targetReady {
        return Failure, -1, -1;
      }
      var ok;
      ok, dstIndex := MapTarget(r);
      if !ok {
        return Failure, -1, -1;
      }
      status, srcIndex := MapSecond(r, dstIndex, old(state), old(table));
    }

    /** Maps the source after the destination. */
    method MapSecond(r: Request, dstIndex: int, ghost v: State, ghost base: seq<nat>)
      returns (status: Status, index: int)
      requires Valid() && !LimitReached(dstType) && state == TargetMapped(v, r) && RoomIn(v) && r.targetReady
      requires v.target.mapped || MapsTarget(r)
      requires PutAt(base, table, dstIndex) && Holding(base, v.held)
      requires dstIndex == -1 <==> v.target.mapped || r.target.handle.gpuAddr != 0
      modifies this`mapped, this`unmapped, this`state, this`table, slots
      ensures status == Success <==> Accepted(r, v.target.mapped)
      ensures status != Success ==> Valid() && state == v.(target := FailedTarget(v.target, r))
      ensures status == Success ==> SourceMapped(r) && state == old(state)
      ensures index == -1 || 0 <= index < slots.Length
    {
      status, index := MapSource(r, dstIndex, base, state.held);
      if status != Success {
        Fail(r, v);
      }
    }

    /** What is left of a destination after the failure. */
    ghost method Fail(r: Request, v: State)
      requires Shape() && Balanced() && Values() == FieldsOf(state) && Listed() && Holding(table, v.held)
      requires state == TargetMapped(v, r) && RoomIn(v) && (v.target.mapped || MapsTarget(r))
      modifies this`state
      ensures Valid() && state == v.(target := FailedTarget(v.target, r))
    {
      FailedFields(v, r);
      state := v.(target := FailedTarget(v.target, r));
    }

    /** Takes the next template of the source's kind for this draw. */
    method TakeTemplate(r: Request, ghost v: State) returns (item: Object)
      requires SourceMapped(r) && state == TargetMapped(v, r) && !LimitReached(dstType)
      modifies this`rgbCount, this`yuv2Count, this`blits, this`state
      ensures Valid() && state == Prepared(v, r) && item == ItemOf(v, r)
    {
      var kind := TypeOf(r.source.format);
      item := Object(kind, if kind.RgbSurface? then rgbCount else yuv2Count, blits, clips, r.target.base,
                     RowsOf(r.source));
      PreparedFields(v, r);
      CountTemplate(kind);
      state := Prepared(v, r);
    }

    method CountTemplate(kind: SurfaceType)
      modifies this`rgbCount, this`yuv2Count, this`blits
      ensures Values() == OneMore(old(Values()), kind)
    {
      if kind.RgbSurface? {
        rgbCount := rgbCount + 1;
      } else {
        yuv2Count := yuv2Count + 1;
      }
      blits := blits + 1;
    }

    method AppendClip(item: Object)
      requires Valid() && blitCount < MAX_BLITS
      modifies this`blitCount, this`clips, this`state, blitList
      ensures Valid() && state == Append(old(state), item)
    {
      blitList[blitCount] := item.(clip := clips);
      blitCount, clips, state := blitCount + 1, clips + 1, Append(state, item);
    }

    method QueueClip(item: Object, ok: nat -> bool)
      requires Valid()
      modifies this, slots, blitList
      ensures Valid() && state == QueueOne(old(state), item, ok)
    {
      if blitCount == MAX_BLITS {
        var _ := Finish(ok);
      }
      AppendClip(item);
    }

    /** Appends one object per clip; a full list is drawn first. */
    method QueueClips(item: Object, count: nat, ok: nat -> bool)
      requires Valid()
      modifies this, slots, blitList
      ensures Valid() && state == Queued(old(state), item, count, ok)
    {
      var left: nat := count;
      while left > 0
        invariant left <= count && Valid() && Queued(state, item, left, ok) == Queued(old(state), item, count, ok)
      {
        QueueClip(item, ok);
        left := left - 1;
      }
    }

    /** Unmapping indices of a table that has been emptied does nothing. */
    method UnmapAgain(dstIndex: int, srcIndex: int)
      requires Shape() && Balanced() && AllFree(table)
      requires dstIndex == -1 || 0 <= dstIndex < slots.Length
      requires srcIndex == -1 || 0 <= srcIndex < slots.Length
      modifies this`unmapped, this`table, slots
      ensures Balanced() && table == old(table)
    {
      Unmap(dstIndex);
      Unmap(srcIndex);
    }

    /** Draws what was queued and copies a temporary destination back. */
    method DrawNow(ok: nat -> bool, copiedBack: bool, dstIndex: int, srcIndex: int) returns (status: Status)
      requires Valid()
      requires dstIndex == -1 || 0 <= dstIndex < slots.Length
      requires srcIndex == -1 || 0 <= srcIndex < slots.Length
      modifies this, slots
      ensures Valid() && state == Finished(old(state), ok)
      ensures status == if copiedBack then Success else Failure
    {
      var _ := Finish(ok);
      status := if copiedBack then Success else Failure;
      if !copiedBack {
        NothingHeld(table);
        UnmapAgain(dstIndex, srcIndex);
      }
    }

    /** The part of a stretch that follows the choice of the target. */
    method Blit(r: Request, count: nat, atOnce: bool, copyBack: bool, copyBackOk: bool, ok: nat -> bool)
      returns (status: Status)
      requires Valid() && !LimitReached(dstType) && (copyBack ==> atOnce)
      modifies this, slots, blitList
      ensures Valid() && state == Blitted(old(state), r, count, atOnce, ok)
      ensures status == Success <==> Accepted(r, old(dstMapped)) && (copyBack ==> copyBackOk)
    {
      var dstIndex, srcIndex;
      status, dstIndex, srcIndex := MapBoth(r);
      if status != Success {
        return;
      }
      var item := TakeTemplate(r, old(state));
      QueueClips(item, count, ok);
      if atOnce {
        status := DrawNow(ok, copyBack ==> copyBackOk, dstIndex, srcIndex);
      }
    }

    /** A blit of one image onto another. It starts from the state at hand, or from an empty one when a
        limit is reached; in that state, it is queued if and only if it is accepted. */
    method StretchInternal(dst: Image, src: Image, count: nat, visible: bool, a: StretchAnswers, ok: nat -> bool)
      returns (status: Status)
      requires Valid() && WellFormed(Call.Stretch(dst, src, count, visible, a))
      modifies this, slots, blitList
      ensures Valid() && state == Apply(old(state), Call.Stretch(dst, src, count, visible, a), ok)
      ensures status == Success <==>
              && !Refused(dst, src) && (NeedsTemp(dst) ==> a.copyBackOk)
              && Accepted(RequestFor(dst, src, visible, a),
                          BeforeOf(old(state), Call.Stretch(dst, src, count, visible, a), ok).target.mapped)
    {
      if TooLarge(src) || TooLarge(dst) {
        return Invalid;
      }
      if dst.format.Tiled? || dst.format.Other? {
        return Failure;
      }
      SelectTarget(TypeOf(dst.format), ok);
      status := Blit(RequestFor(dst, src, visible, a), count, DrawsAtOnce(dst, src), NeedsTemp(dst), a.copyBackOk, ok);
    }

    /** The same under the lock. It succeeds if and only if what it needs is there, and has then been drawn if
        the destination is YUV or the source is misaligned, and is queued otherwise. */
    method Stretch(dst: Image, src: Image, count: nat, visible: bool, a: StretchAnswers, ok: nat -> bool)
      returns (status: Status)
      requires Valid() && WellFormed(Call.Stretch(dst, src, count, visible, a))
      modifies this, slots, blitList
      ensures Valid() && state == Apply(old(state), Call.Stretch(dst, src, count, visible, a), ok)
      ensures status == Success <==>
              StretchPossible(dst, src, visible, a,
                              old(dstMapped && HasRoom(state) && (dstType == RgbSurface <==> dst.format.Rgb?)))
      ensures status == Success && (!dst.format.Rgb? || Misaligned(src)) ==> state.list == []
      ensures status == Success && dst.format.Rgb? && !Misaligned(src) && count > 0 ==> state.list != []
    {
      ghost var c := Call.Stretch(dst, src, count, visible, a);
      MappedBefore(state, c, ok);
      PossibleIff(dst, src, visible, a, BeforeOf(state, c, ok).target.mapped);
      SucceedsAtOnceIff(state, c, ok);
      status := StretchInternal(dst, src, count, visible, a, ok);
    }

    /** One call. */
    method Perform(c: Call, ok: nat -> bool)
      requires Valid() && WellFormed(c)
      modifies this, slots, blitList
      ensures Valid() && state == Apply(old(state), c, ok)
      ensures c.Finish? ==> Balance(mapped, unmapped, [])
    {
      match c
      case Clear(buf, a, fillOk) => var _ := Clear(buf, a, fillOk);
      case Stretch(dst, src, count, visible, a) => var _ := Stretch(dst, src, count, visible, a, ok);
      case Flush(flushOk, fenceOk) => var _ := FlushGetFence(ok, flushOk, fenceOk);
      case Finish => var _ := Finish(ok);
      case Cleanup => Cleanup();
    }

    /** Any interleaving of client calls and rounds of the cleanup thread: the ledger stays balanced, all
        counts stay in range, and the context goes where the calls and the driver's answers lead. */
    method Execute(calls: seq<Call>, ok: nat -> bool)
      requires Valid() && AllWellFormed(calls)
      modifies this, slots, blitList
      ensures Valid() && state == Run(old(state), calls, ok)
      ensures calls != [] && calls[|calls| - 1].Finish? ==> Balance(mapped, unmapped, [])
    {
      for i := 0 to |calls|
        invariant Valid() && state == Run(old(state), calls[..i], ok)
        invariant i > 0 && calls[i - 1].Finish? ==> Balance(mapped, unmapped, [])
      {
        assert calls[..i + 1][..i] == calls[..i];
        Perform(calls[i], ok);
      }
      assert calls[..|calls|] == calls;
    }
  }

  // ---------------------------------------------------------------------------------------------
  // Runs of a new context in which something goes wrong
  // ---------------------------------------------------------------------------------------------

  function Buffer(format: Format, base: nat): Image {
    Image(64, 64, format, base, Handle(0, true, 64))
  }

  /** Destination and source are mapped at these addresses. */
  function At(dst: nat, src: nat): StretchAnswers {
    StretchAnswers(true, true, true, Answers(dst, true), Answers(src, true), true)
  }

  function OneClip(dst: Image, src: Image, a: StretchAnswers): Call {
    Call.Stretch(dst, src, 1, true, a)
  }

  function WithOneClip(v: State, dst: nat, dstAddr: nat, srcAddr: nat): State {
    v.(held := v.held + (if v.target.mapped then multiset{} else multiset{dstAddr}) + multiset{srcAddr},
       owners := v.owners.Taken(RgbSurface, v.blits), blits := v.blits + 1, clips := v.clips + 1,
       target := if v.target.mapped then v.target else Target(true, dst, RgbSurface, Mapping(dst, RgbSurface, 64)),
       list := v.list + [Object(RgbSurface, |v.owners.rgb|, v.blits, v.clips, dst, 64)])
  }

  /** A blit of one clip that is accepted and fits. */
  lemma OneClipBlitted(b: State, r: Request, atOnce: bool, ok: nat -> bool)
    requires Accepted(r, b.target.mapped) && |b.list| < MAX_BLITS
    ensures var q := Append(Prepared(b, r), ItemOf(b, r));
            Blitted(b, r, 1, atOnce, ok) == if atOnce then Finished(q, ok) else q
  {
    var p, item := Prepared(b, r), ItemOf(b, r);
    assert QueueOne(p, item, ok) == Append(p, item);
    assert Queued(p, item, 1, ok) == Queued(Append(p, item), item, 0, ok);
  }

  /** A blit of one clip onto an RGB buffer, from a state with room for it. */
  lemma OneClipQueued(v: State, dst: nat, src: nat, dstAddr: nat, srcAddr: nat, ok: nat -> bool)
    requires v.target.kind == RgbSurface && |v.owners.rgb| < MAX_RGB && |v.owners.yuv2| < MAX_YUV2
    requires |v.list| < MAX_BLITS && dstAddr != 0 && srcAddr != 0
    ensures Apply(v, OneClip(Buffer(Rgb, dst), Buffer(Rgb, src), At(dstAddr, srcAddr)), ok)
            == WithOneClip(v, dst, dstAddr, srcAddr)
  {
    var c := OneClip(Buffer(Rgb, dst), Buffer(Rgb, src), At(dstAddr, srcAddr));
    var r := RequestOf(c);
    assert BeforeOf(v, c, ok) == v;
    assert r.target == Buffer(Rgb, dst) && r.source == Buffer(Rgb, src) && Accepted(r, v.target.mapped);
    OneClipBlitted(v, r, false, ok);
    assert Apply(v, c, ok) == Append(Prepared(v, r), ItemOf(v, r));
  }

  method BlitOne(ctx: Context, dst: nat, src: nat, dstAddr: nat, srcAddr: nat, ok: nat -> bool) returns (status: Status)
    requires ctx.Valid() && dstAddr != 0 && srcAddr != 0 && ctx.state.target.kind == RgbSurface
    requires |ctx.state.owners.rgb| < MAX_RGB && |ctx.state.owners.yuv2| < MAX_YUV2 && |ctx.state.list| < MAX_BLITS
    modifies ctx, ctx.slots, ctx.blitList
    ensures ctx.Valid() && status == Success && ctx.state == WithOneClip(old(ctx.state), dst, dstAddr, srcAddr)
  {
    status := ctx.Stretch(Buffer(Rgb, dst), Buffer(Rgb, src), 1, true, At(dstAddr, srcAddr), ok);
    OneClipQueued(old(ctx.state), dst, src, dstAddr, srcAddr, ok);
  }

  /** Two destinations in one composition: both blits succeed, and the second one is queued for the first
      one's destination. Its own is not mapped. */
  method TwoDestinations(ok: nat -> bool) returns (ctx: Context)
    ensures fresh(ctx) && ctx.Valid() && |ctx.state.list| == 2 && ctx.state.list[1].dst == 2
    ensures ctx.state.target.made == Mapping(1, RgbSurface, 64) && !Ready(ctx.state) && 20 !in ctx.state.held
  {
    ctx := new Context();
    var first := BlitOne(ctx, 1, 3, 10, 30, ok);
    var second := BlitOne(ctx, 2, 3, 20, 31, ok);
    assert !Placed(RgbSurface, ctx.state.target.made, ctx.state.owners, ctx.state.list[1]);
  }

  /** A YUV buffer that C2D can use, drawn at once. */
  function YuvBlit(): Call {
    OneClip(Buffer(SemiPlanar, 1), Buffer(Rgb, 3), At(10, 30))
  }

  /** What is drawn when such a blit starts in state `b`. */
  function YuvDraw(b: State, ok: bool): Draw {
    Draw(Yuv2Surface, if b.target.mapped then b.target.made else Mapping(1, Yuv2Surface, 64), Owners([b.blits], []),
         [Object(RgbSurface, 0, b.blits, b.clips, 1, 64)], ok)
  }

  lemma YuvBlitted(b: State, ok: nat -> bool)
    requires b.list == [] && b.owners == Owners([], []) && b.target.kind == Yuv2Surface
    ensures var w := Blitted(b, RequestOf(YuvBlit()), 1, true, ok);
            w == Emptied(w) && w.target.kind == Yuv2Surface && w.log == b.log + [YuvDraw(b, ok(|b.log|))]
  {
    var r := RequestOf(YuvBlit());
    assert r.target == Buffer(SemiPlanar, 1) && r.source == Buffer(Rgb, 3) && Accepted(r, b.target.mapped);
    OneClipBlitted(b, r, true, ok);
    var q := Append(Prepared(b, r), ItemOf(b, r));
    assert q.list == [Object(RgbSurface, 0, b.blits, b.clips, 1, 64)] && q.owners == Owners([b.blits], []);
    assert DrawOf(q, ok(|b.log|)) == YuvDraw(b, ok(|b.log|)) && q.log == b.log;
  }

  method BlitYuv(ctx: Context, ghost b: State, ok: nat -> bool) returns (status: Status)
    requires ctx.Valid() && b == Selected(ctx.state, Yuv2Surface, ok) && b.list == [] && b.owners == Owners([], [])
    modifies ctx, ctx.slots, ctx.blitList
    ensures ctx.Valid() && status == Success && ctx.state == Emptied(ctx.state) && ctx.state.target.kind == Yuv2Surface
    ensures ctx.state.log == b.log + [YuvDraw(b, ok(|b.log|))]
  {
    YuvBlitted(b, ok);
    status := ctx.Stretch(Buffer(SemiPlanar, 1), Buffer(Rgb, 3), 1, true, At(10, 30), ok);
  }

  /** A clear while the target type is YUV maps the RGB surface, and the YUV blit that follows succeeds and is
      drawn on a surface that is not mapped. */
  method ClearAfterYuv(ok: nat -> bool) returns (ctx: Context)
    ensures fresh(ctx) && ctx.Valid() && |ctx.state.log| == 2 && Right(ctx.state.log[0]) && !Right(ctx.state.log[1])
    ensures ctx.state.log[1].kind == Yuv2Surface && ctx.state.log[1].made == Mapping(2, RgbSurface, 64)
  {
    ctx := new Context();
    ghost var b := Selected(Start(), Yuv2Surface, ok);
    var first := BlitYuv(ctx, b, ok);
    var cleared := ctx.Clear(Buffer(Rgb, 2), Answers(20, true), true);
    ghost var c := ctx.state;
    var second := BlitYuv(ctx, c, ok);
    assert first == cleared == second == Success;
    TwoDraws(b, c, ok(0), ok(1));
  }

  lemma TwoDraws(b: State, c: State, first: bool, second: bool)
    requires !b.target.mapped && c.target.mapped && c.target.made == Mapping(2, RgbSurface, 64)
    ensures Right(YuvDraw(b, first)) && !Right(YuvDraw(c, second))
  {
    var d := YuvDraw(c, second);
    assert !Placed(d.kind, d.made, d.owners, d.items[0]);
  }

  /** A blit that cannot map its source unmaps the destination and leaves it counted as mapped, and the
      blit that follows is queued for a destination that is not mapped. */
  method BlitAfterFailure(ok: nat -> bool) returns (ctx: Context)
    ensures fresh(ctx) && ctx.Valid() && |ctx.state.list| == 1 && ctx.state.target.mapped
    ensures ctx.state.target.made == Nothing && !Ready(ctx.state) && 10 !in ctx.state.held
  {
    ctx := new Context();
    var first := ctx.Stretch(Buffer(Rgb, 1), Buffer(Rgb, 3), 1, true, At(10, 0), ok);
    assert first != Success && ctx.state == Start().(target := Target(true, 1, RgbSurface, Nothing));
    var second := BlitOne(ctx, 1, 3, 10, 30, ok);
    assert !Placed(RgbSurface, Nothing, ctx.state.owners, ctx.state.list[0]);
  }

  /** More clips than the list holds: the last one is queued without a template and without a
      destination. */
  method TooManyClips(ok: nat -> bool) returns (ctx: Context)
    ensures fresh(ctx) && ctx.Valid() && ctx.state.list != [] && !Faultless(ctx.state)
  {
    ctx := new Context();
    var dst, src, a := Buffer(Rgb, 1), Buffer(Rgb, 3), At(10, 30);
    var status := ctx.Stretch(dst, src, MAX_BLITS + 1, true, a, ok);
    assert status == Success;
    OverflowIsWrong(dst, src, a, ok);
  }

  lemma OverflowIsWrong(dst: Image, src: Image, a: StretchAnswers, ok: nat -> bool)
    requires dst == Buffer(Rgb, 1) && src == Buffer(Rgb, 3) && a == At(10, 30)
    ensures var v := Apply(Start(), Call.Stretch(dst, src, MAX_BLITS + 1, true, a), ok);
            v.list != [] && !Faultless(v)
  {
    var r := RequestFor(dst, src, true, a);
    var p, item := Prepared(Start(), r), ItemOf(Start(), r);
    PreparedFaultless(Start(), r);
    QueuedFaultlessIff(p, item, MAX_BLITS + 1, ok);
    QueuedNotEmpty(p, item, MAX_BLITS + 1, ok);
  }

  /** A second flush before the cleanup draws the list again. */
  method FlushedTwice() returns (ctx: Context)
    ensures fresh(ctx) && ctx.Valid() && ctx.state.clips == 1 && TimesDrawn(ctx.state.log, 0) == 2
  {
    var ok := (n: nat) => true;
    ctx := new Context();
    var status := BlitOne(ctx, 1, 3, 10, 30, ok);
    ghost var v := ctx.state;
    var first := ctx.FlushGetFence(ok, true, true);
    TimesAfterDraw(v, ok, 0);
    ghost var w := ctx.state;
    var second := ctx.FlushGetFence(ok, true, true);
    TimesAfterDraw(w, ok, 0);
    assert first == second == Success;
  }

  /** A blit that is queued between a flush and its cleanup is dropped without being drawn. */
  method DroppedByCleanup() returns (ctx: Context)
    ensures fresh(ctx) && ctx.Valid() && ctx.state.clips == 2 && ctx.state.list == []
    ensures TimesDrawn(ctx.state.log, 1) == 0
  {
    var ok := (n: nat) => true;
    ctx := new Context();
    var first := BlitOne(ctx, 1, 3, 10, 30, ok);
    ghost var v := ctx.state;
    var flushed := ctx.FlushGetFence(ok, true, true);
    TimesAfterDraw(v, ok, 1);
    var second := BlitOne(ctx, 1, 4, 10, 40, ok);
    assert flushed == Success;
    ctx.Cleanup();
  }
}
