/** The MDP copybit context: a bounded list of blit requests, the acquire fences collected for it, and
    the release fence of the last batch. The driver's answers form a stream, one per ioctl.
 */
module MdpQueue {
  import opened Alignment
  import opened MdpRects

  const MAX_COUNT := 10
  const MAX_DIMENSION := 4096

  datatype Item = Blit(request: Request) | Fill(rect: Rect, color: nat)

  /** An ioctl's result, and the release fence it stores on success (-1 for none). */
  datatype Answer = Answer(ok: bool, fence: int)

  datatype Status = Ok | Invalid | Failed

  // ---------------------------------------------------------------------------------------------
  // Requests as values
  // ---------------------------------------------------------------------------------------------

  /** What became of the requests: accepted from clients, submitted to the driver, still pending, and how
      many were lost with a batch the driver refused. */
  datatype Queue = Queue(accepted: seq<Item>, submitted: seq<Item>, pending: seq<Item>, lost: nat)

  function Push(q: Queue, item: Item): Queue {
    q.(accepted := q.accepted + [item], pending := q.pending + [item])
  }

  /** The list is cleared after a driver call. */
  function Drain(q: Queue, ok: bool): Queue {
    if ok then q.(submitted := q.submitted + q.pending, pending := [])
    else q.(pending := [], lost := q.lost + |q.pending|)
  }

  /** One more request, drained with the rest when the list is full. */
  function PushOrDrain(q: Queue, item: Item, ok: bool): Queue {
    if |q.pending| + 1 == MAX_COUNT then Drain(Push(q, item), ok) else Push(q, item)
  }

  /** Every accepted request is submitted, pending or lost; when none is lost, what was submitted and
      what is pending are the accepted requests in order. */
  predicate Conserved(q: Queue) {
    && |q.accepted| == |q.submitted| + |q.pending| + q.lost
    && (q.lost == 0 ==> q.accepted == q.submitted + q.pending)
  }

  lemma PushConserves(q: Queue, item: Item)
    requires Conserved(q)
    ensures Conserved(Push(q, item))
  {
    assert q.submitted + (q.pending + [item]) == q.submitted + q.pending + [item];
  }

  lemma DrainConserves(q: Queue, ok: bool)
    requires Conserved(q)
    ensures Conserved(Drain(q, ok))
  {
    assert q.submitted + q.pending + [] == q.submitted + q.pending;
  }

  // ---------------------------------------------------------------------------------------------
  // Release fences as values
  // ---------------------------------------------------------------------------------------------

  /** Fences in order of creation: closed, handed to a client, and the one held (-1 for none). */
  datatype Fences = Fences(created: nat, closed: set<nat>, handed: set<nat>, held: int)

  function Close(f: Fences): Fences {
    if f.held < 0 then f else f.(closed := f.closed + {f.held}, held := -1)
  }

  function HandOut(f: Fences): Fences {
    if f.held < 0 then f else f.(handed := f.handed + {f.held}, held := -1)
  }

  function Receive(f: Fences, fence: int): Fences {
    if fence == -1 then f else f.(created := f.created + 1, held := f.created)
  }

  /** Each fence ever created is closed, handed out or held, and only one of these. */
  ghost predicate Accounted(f: Fences) {
    && -1 <= f.held < f.created && f.closed !! f.handed
    && f.held !in f.closed && f.held !in f.handed
    && (forall id: nat :: id < f.created <==> id in f.closed || id in f.handed || id == f.held)
  }

  lemma CloseAccounts(f: Fences)
    requires Accounted(f)
    ensures Accounted(Close(f)) && Close(f).held == -1
  {
  }

  lemma HandOutAccounts(f: Fences)
    requires Accounted(f)
    ensures Accounted(HandOut(f)) && HandOut(f).held == -1
  {
  }

  lemma ReceiveAccounts(f: Fences, fence: int)
    requires Accounted(f) && f.held == -1
    ensures Accounted(Receive(f, fence)) && (Receive(f, fence).held == -1 <==> fence == -1)
  {
  }

  // ---------------------------------------------------------------------------------------------
  // The requests of a stretch
  // ---------------------------------------------------------------------------------------------

  /** Arguments of a stretch; `refused` stands for plane alpha on a format with its own alpha. */
  datatype StretchArgs = StretchArgs(f: Flags, refused: bool, srcW: nat, srcH: nat, dstW: nat, dstH: nat,
                                     src: Rect, dst: Rect, yv12: bool, converted: bool)

  predicate StretchRejected(a: StretchArgs) {
    || a.refused
    || a.src.l < 0 || W32(a.src.r) > a.srcW || a.src.t < 0 || W32(a.src.b) > a.srcH
    || a.srcW > MAX_DIMENSION || a.srcH > MAX_DIMENSION || a.dstW > MAX_DIMENSION || a.dstH > MAX_DIMENSION
    || (a.yv12 && !a.converted)
  }

  /** A stretch is let through if and only if the source rectangle lies in the source image, no dimension
      exceeds 4096, plane alpha is not asked of a format with its own, and a YV12 source was converted. */
  lemma StretchAcceptedIff(a: StretchArgs)
    requires -(TWO_32 / 2) <= a.src.r < TWO_32 / 2 && -(TWO_32 / 2) <= a.src.b < TWO_32 / 2
    ensures !StretchRejected(a) <==>
            && !a.refused && a.srcW <= 4096 && a.srcH <= 4096 && a.dstW <= 4096 && a.dstH <= 4096
            && 0 <= a.src.l && 0 <= a.src.r <= a.srcW && 0 <= a.src.t && 0 <= a.src.b <= a.srcH
            && (a.yv12 ==> a.converted)
  {
    if a.srcW <= 4096 && a.srcH <= 4096 {
      SmallUnsigned(a.src.r, a.srcW);
      SmallUnsigned(a.src.b, a.srcH);
    }
  }

  lemma SmallUnsigned(x: int, limit: nat)
    requires -(TWO_32 / 2) <= x < TWO_32 / 2 && limit <= 4096
    ensures W32(x) <= limit <==> 0 <= x <= limit
  {
  }

  /** The request for one clip; clips whose source or destination is empty are skipped. */
  function ClipItems(a: StretchArgs, clip: Rect): seq<Item> {
    match RectsOf(a.f, a.dst, a.src, Intersect(Rect(0, 0, a.dstW, a.dstH), clip))
    case None => []
    case Some(r) => if r.src.w <= 0 || r.src.h <= 0 || r.dst.w <= 0 || r.dst.h <= 0 then [] else [Blit(r)]
  }

  /** The requests of a stretch over a region, in order. */
  function StretchItems(a: StretchArgs, clips: seq<Rect>): seq<Item> {
    if clips == [] then []
    else
      var n := |clips| - 1;
      StretchItems(a, clips[..n]) + ClipItems(a, clips[n])
  }

  lemma ItemsForNext(a: StretchArgs, clips: seq<Rect>, i: nat)
    requires i < |clips|
    ensures StretchItems(a, clips[..i + 1]) == StretchItems(a, clips[..i]) + ClipItems(a, clips[i])
  {
    assert clips[..i + 1][..i] == clips[..i];
  }

  predicate RectRejected(rect: Rect, w: nat, h: nat) {
    rect.l < 0 || W32(rect.r - rect.l) > w || rect.t < 0 || W32(rect.b - rect.t) > h
  }

  /** A fill is let through if and only if its corner is not negative and it is no larger than the image,
      wherever it lies; an image that is too large refuses all. */
  lemma FillAcceptedIff(w: nat, h: nat, rect: Rect)
    requires -(TWO_32 / 2) <= rect.r - rect.l < TWO_32 / 2 && -(TWO_32 / 2) <= rect.b - rect.t < TWO_32 / 2
    ensures !FillRejected(w, h, rect) <==>
            && w <= 4096 && h <= 4096 && 0 <= rect.l && 0 <= rect.t
            && 0 <= rect.r - rect.l <= w && 0 <= rect.b - rect.t <= h
  {
    if w <= 4096 && h <= 4096 {
      SmallUnsigned(rect.r - rect.l, w);
      SmallUnsigned(rect.b - rect.t, h);
    }
  }

  /** So a fill may lie beside its image. */
  lemma FillBesideImage()
    ensures !FillRejected(100, 100, Rect(200, 200, 300, 300))
  {
  }

  /** Every request of a stretch that does not wrap reads inside the source image and writes inside the
      destination image. */
  lemma RequestsInsideImages(a: StretchArgs, clip: Rect, item: Item)
    requires !StretchRejected(a) && Nonempty(a.src) && Nonempty(a.dst) && NoWrap(a.f, a.dst, a.src)
    requires a.src.r < TWO_32 / 2 && a.src.b < TWO_32 / 2 && item in ClipItems(a, clip)
    ensures item.Blit?
    ensures InsideImage(item.request.src, a.srcW, a.srcH) && InsideImage(item.request.dst, a.dstW, a.dstH)
  {
    var c := Intersect(Intersect(Rect(0, 0, a.dstW, a.dstH), clip), a.dst);
    var s := SourceRect(a.f, a.dst, a.src, c);
    assert item == Blit(Request(MdpRect(W32(c.l), W32(c.t), c.r - c.l, c.b - c.t), s));
    ClipInsideImage(a.dstW, a.dstH, clip, a.dst);
    SourceInImage(a);
    SourceInside(a.f, a.dst, a.src, c);
    InsideRectInsideImage(s, a.src, a.srcW, a.srcH);
  }

  /** A clip gives a request if and only if some pixel lies in the destination image, in the clip and in the
      destination rectangle, and the source of these pixels is not empty; and then one request, which writes
      exactly these pixels and reads their source. */
  lemma OneRequestPerClip(a: StretchArgs, clip: Rect, at: Point)
    requires a.dstW <= MAX_DIMENSION && a.dstH <= MAX_DIMENSION
    ensures |ClipItems(a, clip)| <= 1
    ensures ClipItems(a, clip) == [] ==>
              || !Written(a, clip, at)
              || var c := Common(a, clip);
                 Within(c, a.dst) && EmptyRect(SourceRect(a.f, a.dst, a.src, c))
    ensures ClipItems(a, clip) != [] ==>
              var item, c := ClipItems(a, clip)[0], Common(a, clip);
              && item.Blit? && (Covers(item.request.dst, at) <==> Written(a, clip, at))
              && Within(c, a.dst) && item.request.src == SourceRect(a.f, a.dst, a.src, c)
              && !EmptyRect(item.request.src) && !EmptyRect(item.request.dst)
  {
    var image, c := Rect(0, 0, a.dstW, a.dstH), Common(a, clip);
    IntersectIsCommon(image, clip, at);
    IntersectIsCommon(Intersect(image, clip), a.dst, at);
    if Nonempty(c) {
      assert W32(c.l) == c.l && W32(c.t) == c.t;
    }
  }

  /** The rectangle of the pixels that a clip of a stretch writes. */
  function Common(a: StretchArgs, clip: Rect): Rect {
    Intersect(Intersect(Rect(0, 0, a.dstW, a.dstH), clip), a.dst)
  }

  /** The pixel lies in the destination image, in the clip and in the destination rectangle. */
  predicate Written(a: StretchArgs, clip: Rect, at: Point) {
    0 <= at.x < a.dstW && 0 <= at.y < a.dstH && Contains(clip, at) && Contains(a.dst, at)
  }

  predicate EmptyRect(r: MdpRect) {
    r.w <= 0 || r.h <= 0
  }

  lemma SourceInImage(a: StretchArgs)
    requires !StretchRejected(a) && Nonempty(a.src) && a.src.r < TWO_32 / 2 && a.src.b < TWO_32 / 2
    ensures 0 <= a.src.l && 0 <= a.src.t && a.src.r <= a.srcW && a.src.b <= a.srcH
  {
  }

  lemma ClipInsideImage(w: nat, h: nat, clip: Rect, dst: Rect)
    requires w <= MAX_DIMENSION && h <= MAX_DIMENSION
    requires Nonempty(Intersect(Intersect(Rect(0, 0, w, h), clip), dst))
    ensures var c := Intersect(Intersect(Rect(0, 0, w, h), clip), dst);
            InsideImage(MdpRect(W32(c.l), W32(c.t), c.r - c.l, c.b - c.t), w, h)
  {
  }

  lemma InsideRectInsideImage(s: MdpRect, src: Rect, w: nat, h: nat)
    requires InsideRect(s, src) && 0 <= src.l && 0 <= src.t && src.r <= w && src.b <= h
    ensures InsideImage(s, w, h)
  {
  }

  predicate InsideImage(r: MdpRect, w: nat, h: nat) {
    0 <= r.x && 0 <= r.w && r.x + r.w <= w && 0 <= r.y && 0 <= r.h && r.y + r.h <= h
  }

  datatype Call =
    | SetSync(fd: int)
    | Stretch(args: StretchArgs, clips: seq<Rect>)
    | FillColor(w: nat, h: nat, rect: Rect, color: nat)
    | Flush
    | Clear(w: nat, h: nat, rect: Rect)

  predicate FillRejected(w: nat, h: nat, rect: Rect) {
    w > MAX_DIMENSION || h > MAX_DIMENSION || RectRejected(rect, w, h)
  }

  /** The requests that a call asks for, read off the call alone. */
  function RequestedBy(c: Call): seq<Item> {
    match c
    case Stretch(a, clips) => if StretchRejected(a) then [] else StretchItems(a, clips)
    case FillColor(w, h, rect, color) => if FillRejected(w, h, rect) then [] else [Fill(rect, color)]
    case _ => []
  }

  function Requested(calls: seq<Call>): seq<Item> {
    if calls == [] then [] else Requested(calls[..|calls| - 1]) + RequestedBy(calls[|calls| - 1])
  }

  function Joined(parts: seq<seq<Item>>): seq<Item> {
    if parts == [] then [] else Joined(parts[..|parts| - 1]) + parts[|parts| - 1]
  }

  lemma {:induction false} ItemsOfPrefix(a: StretchArgs, clips: seq<Rect>, done: nat)
    requires done <= |clips|
    ensures StretchItems(a, clips[..done]) <= StretchItems(a, clips)
  {
    if done < |clips| {
      var n := |clips| - 1;
      ItemsOfPrefix(a, clips[..n], done);
      assert clips[..n][..done] == clips[..done];
    } else {
      assert clips[..done] == clips;
    }
  }

  /** Each call with the requests that were accepted from it: the first ones it asks for. */
  predicate TakenFrom(calls: seq<Call>, taken: seq<seq<Item>>) {
    |taken| == |calls| && forall i :: 0 <= i < |calls| ==> taken[i] <= RequestedBy(calls[i])
  }

  lemma TakenNext(calls: seq<Call>, i: nat, taken: seq<seq<Item>>, part: seq<Item>)
    requires i < |calls| && TakenFrom(calls[..i], taken) && part <= RequestedBy(calls[i])
    ensures TakenFrom(calls[..i + 1], taken + [part])
  {
    forall k | 0 <= k <= i
      ensures (taken + [part])[k] <= RequestedBy(calls[..i + 1][k])
    {
      if k < i {
        assert taken[k] <= RequestedBy(calls[..i][k]);
      }
    }
  }

  lemma JoinedNext(parts: seq<seq<Item>>, part: seq<Item>)
    ensures Joined(parts + [part]) == Joined(parts) + part
  {
    assert (parts + [part])[..|parts|] == parts;
  }

  lemma RequestedNext(calls: seq<Call>, i: nat)
    requires i < |calls|
    ensures Requested(calls[..i + 1]) == Requested(calls[..i]) + RequestedBy(calls[i])
  {
    assert calls[..i + 1][..i] == calls[..i];
  }

  lemma Regrouped(x: seq<Item>, y: seq<Item>, z: seq<Item>)
    ensures x + y + z == x + (y + z)
  {
  }

  // ---------------------------------------------------------------------------------------------
  // The context
  // ---------------------------------------------------------------------------------------------

  class Context {
    const driver: nat -> Answer
    const list: array<Item>
    const acqFence: array<int>
    var count: nat
    var acqCount: nat
    var relFence: int
    var calls: nat
    ghost var accepted: seq<Item>
    ghost var submitted: seq<Item>
    ghost var lost: nat
    ghost var fences: Fences

    constructor (driver: nat -> Answer, maxFences: nat)
      requires maxFences >= 2
      ensures Valid() && View() == Queue([], [], [], 0) && fences == Fences(0, {}, {}, -1)
      ensures this.driver == driver && fresh(list) && fresh(acqFence)
    {
      this.driver := driver;
      list := new Item[MAX_COUNT](_ => Fill(Rect(0, 0, 0, 0), 0));
      acqFence := new int[maxFences](_ => -1);
      count, acqCount, relFence, calls := 0, 0, -1, 0;
      accepted, submitted, lost, fences := [], [], 0, Fences(0, {}, {}, -1);
    }

    ghost predicate Shape()
      reads this`count
    {
      list.Length == MAX_COUNT && acqFence.Length >= 2 && count <= MAX_COUNT
    }

    ghost function View(): Queue
      requires Shape()
      reads this`count, this`accepted, this`submitted, this`lost, list
    {
      Queue(accepted, submitted, list[..count], lost)
    }

    ghost predicate FencesValid()
      reads this`relFence, this`fences
    {
      Accounted(fences) && (relFence == -1 <==> fences.held == -1)
    }

    /** Every driver call so far has succeeded. */
    ghost predicate AllOk()
      reads this`calls
    {
      forall i: nat :: i < calls ==> driver(i).ok
    }

    /** What holds inside a call, when the list may be full. */
    ghost predicate Consistent()
      reads this, list
    {
      && Shape() && acqCount < acqFence.Length && Conserved(View()) && FencesValid()
      && (AllOk() ==> lost == 0)
    }

    /** What holds between calls. */
    ghost predicate Valid()
      reads this, list
    {
      Consistent() && count < MAX_COUNT
    }

    /** One ioctl, after closing the release fence that nobody asked for. */
    method MsmCopybit() returns (ok: bool, fence: int)
      requires FencesValid()
      modifies this`relFence, this`calls, this`fences
      ensures relFence == -1 && fences == Close(old(fences)) && FencesValid()
      ensures calls == old(calls) + 1 && ok == driver(old(calls)).ok
      ensures fence == if ok then driver(old(calls)).fence else -1
    {
      CloseAccounts(fences);
      if relFence != -1 {
        fences, relFence := Close(fences), -1;
      }
      var answer := driver(calls);
      calls := calls + 1;
      ok, fence := answer.ok, if answer.ok then answer.fence else -1;
    }

    /** Submits the list; on success the driver stores the release fence of the batch. */
    method KickOff() returns (ok: bool)
      requires FencesValid()
      modifies this`relFence, this`calls, this`fences
      ensures FencesValid() && calls == old(calls) + 1 && ok == driver(old(calls)).ok
      ensures relFence == if ok then driver(old(calls)).fence else -1
      ensures fences == Receive(Close(old(fences)), relFence)
    {
      var fence;
      ok, fence := MsmCopybit();
      ReceiveAccounts(fences, fence);
      relFence := fence;
      fences := Receive(fences, fence);
    }

    /** Submits the list and empties it whatever the driver says. */
    method SubmitAndClear() returns (ok: bool)
      requires Consistent()
      modifies this`relFence, this`calls, this`fences, this`count, this`acqCount, this`submitted, this`lost
      ensures Valid() && View() == Drain(old(View()), ok) && acqCount == 0
      ensures calls == old(calls) + 1 && ok == driver(old(calls)).ok
      ensures relFence == if ok then driver(old(calls)).fence else -1
      ensures fences == Receive(Close(old(fences)), relFence)
    {
      DrainConserves(View(), driver(calls).ok);
      ok := KickOff();
      if ok {
        submitted := submitted + list[..count];
      } else {
        lost := lost + count;
        assert !AllOk();
      }
      acqCount, count := 0, 0;
    }

    /** Appends a request; a full list is submitted at once. */
    method Enqueue(item: Item) returns (status: Status)
      requires Valid()
      modifies this, list
      ensures Valid() && View() == PushOrDrain(old(View()), item, driver(old(calls)).ok)
      ensures old(count) + 1 < MAX_COUNT ==> calls == old(calls) && acqCount == old(acqCount) && fences == old(fences)
      ensures old(count) + 1 == MAX_COUNT ==> calls == old(calls) + 1 && acqCount == 0
      ensures status == if old(count) + 1 == MAX_COUNT && !driver(old(calls)).ok then Failed else Ok
    {
      PushConserves(View(), item);
      list[count] := item;
      count := count + 1;
      accepted := accepted + [item];
      assert View() == Push(old(View()), item);
      status := Ok;
      if count == MAX_COUNT {
        var ok := SubmitAndClear();
        if !ok {
          status := Failed;
        }
      }
    }

    /** Keeps an acquire fence for the next batch; when there is no room, what is queued is submitted
        first, and kept if the driver refuses it. */
    method SetSync(fd: int) returns (status: Status)
      requires Valid()
      modifies this`relFence, this`calls, this`fences, this`count, this`acqCount, this`submitted, acqFence
      ensures Valid()
      ensures View() == if calls > old(calls) && status == Ok then Drain(old(View()), true) else old(View())
      ensures status == Ok || (status == Invalid && calls > old(calls) && !driver(old(calls)).ok)
      ensures status == Ok && fd != -1 ==> acqCount > 0 && acqFence[acqCount - 1] == fd
      ensures fd == -1 || old(acqCount) < acqFence.Length - 1 ==> calls == old(calls) && fences == old(fences)
      ensures calls >= old(calls)
    {
      status := Ok;
      if fd != -1 {
        if acqCount < acqFence.Length - 1 {
          acqFence[acqCount] := fd;
          acqCount := acqCount + 1;
        } else {
          DrainConserves(View(), true);
          var ok := KickOff();
          if !ok {
            assert !AllOk();
            return Invalid;
          }
          submitted := submitted + list[..count];
          count := 0;
          acqFence[0] := fd;
          acqCount := 1;
        }
      }
    }

    /** Queues the request of one clip, if it has one. */
    method StretchClip(a: StretchArgs, clip: Rect) returns (status: Status)
      requires Valid()
      modifies this, list
      ensures Valid() && accepted == old(accepted) + ClipItems(a, clip)
      ensures status == Ok || (status == Failed && !AllOk() && count == 0)
      ensures calls >= old(calls)
    {
      status := Ok;
      var request := SetRects(a.f, a.dst, a.src, Intersect(Rect(0, 0, a.dstW, a.dstH), clip));
      if request.Some? {
        var r := request.value;
        if r.src.w > 0 && r.src.h > 0 && r.dst.w > 0 && r.dst.h > 0 {
          status := Enqueue(Blit(r));
        }
      }
    }

    /** Queues one request per clip that meets the destination, until a batch fails. The requests of a
        converted YV12 source are submitted before its temporary buffer is given back. */
    method Stretch(a: StretchArgs, clips: seq<Rect>) returns (status: Status, ghost done: nat)
      requires Valid()
      modifies this, list
      ensures Valid()
      ensures StretchRejected(a) ==> status == Invalid && View() == old(View()) && calls == old(calls) && done == 0
      ensures done <= |clips| && accepted == old(accepted) + StretchItems(a, clips[..done])
      ensures status == Ok && !StretchRejected(a) ==> done == |clips|
      ensures !StretchRejected(a) && a.yv12 ==> count == 0
      ensures status == Failed ==> !AllOk()
      ensures !StretchRejected(a) ==> status != Invalid
      ensures calls >= old(calls)
    {
      status, done := Invalid, 0;
      if StretchRejected(a) {
        return;
      }
      status := Ok;
      var i := 0;
      while status == Ok && i < |clips|
        invariant i <= |clips| && status != Invalid && Valid() && calls >= old(calls)
        invariant accepted == old(accepted) + StretchItems(a, clips[..i])
        invariant status == Failed ==> !AllOk() && count == 0
      {
        ItemsForNext(a, clips, i);
        status := StretchClip(a, clips[i]);
        i := i + 1;
      }
      done := i;
      if a.yv12 && count != 0 {
        var ok := SubmitAndClear();
        status := if ok then Ok else Failed;
      }
    }

    method FillColor(dstW: nat, dstH: nat, rect: Rect, color: nat) returns (status: Status)
      requires Valid()
      modifies this, list
      ensures Valid()
      ensures FillRejected(dstW, dstH, rect) ==>
                status == Invalid && View() == old(View()) && fences == old(fences) && calls == old(calls)
      ensures !FillRejected(dstW, dstH, rect) ==>
                status != Invalid && View() == PushOrDrain(old(View()), Fill(rect, color), driver(old(calls)).ok)
      ensures calls >= old(calls)
    {
      if FillRejected(dstW, dstH, rect) {
        return Invalid;
      }
      status := Enqueue(Fill(rect, color));
    }

    /** Submits what is queued and hands the release fence to the client. */
    method FlushGetFence() returns (status: Status, fd: int)
      requires Valid()
      modifies this`relFence, this`calls, this`fences, this`count, this`acqCount, this`submitted, this`lost
      ensures Valid() && count == 0 && acqCount == 0 && relFence == -1
      ensures old(count) == 0 ==>
                status == Invalid && View() == old(View()) && fd == old(relFence) && fences == HandOut(old(fences))
      ensures old(count) > 0 ==>
                && status == (if driver(old(calls)).ok then Ok else Failed)
                && View() == Drain(old(View()), driver(old(calls)).ok)
                && fd == (if driver(old(calls)).ok then driver(old(calls)).fence else -1)
                && fences == HandOut(Receive(Close(old(fences)), fd))
      ensures calls >= old(calls)
    {
      status := Invalid;
      if count != 0 {
        var ok := SubmitAndClear();
        status := if ok then Ok else Failed;
      }
      fd := relFence;
      HandOutAccounts(fences);
      acqCount, relFence, fences := 0, -1, HandOut(fences);
    }

    /** Fills a rectangle with black at once, in a list of its own; the release fence of that batch is
        closed right away. */
    method Clear(w: nat, h: nat, rect: Rect) returns (status: Status)
      requires Valid()
      modifies this`relFence, this`calls, this`fences, this`acqCount
      ensures Valid() && View() == old(View())
      ensures RectRejected(rect, w, h) ==> status == Invalid && calls == old(calls) && fences == old(fences)
      ensures !RectRejected(rect, w, h) ==>
                && status == (if driver(old(calls)).ok then Ok else Failed)
                && relFence == -1 && acqCount == 0 && calls == old(calls) + 1
                && fences.handed == old(fences).handed && fences.held == -1
      ensures calls >= old(calls)
    {
      if RectRejected(rect, w, h) {
        return Invalid;
      }
      var ok, tmp := MsmCopybit();
      acqCount := 0;
      ReceiveAccounts(fences, tmp);
      CloseAccounts(Receive(fences, tmp));
      fences := Close(Receive(fences, tmp));
      status := if ok then Ok else Failed;
    }

    /** One call. What is accepted from it are the first requests it asks for, and all of them unless the
        driver refuses a batch. */
    method Perform(c: Call) returns (ghost part: seq<Item>)
      requires Valid()
      modifies this, list, acqFence
      ensures Valid() && calls >= old(calls) && accepted == old(accepted) + part && part <= RequestedBy(c)
      ensures AllOk() ==> part == RequestedBy(c)
    {
      part := [];
      match c
      case SetSync(fd) => var _ := SetSync(fd);
      case Stretch(a, clips) => part := StretchCall(a, clips);
      case FillColor(w, h, rect, color) =>
        var _ := FillColor(w, h, rect, color);
        part := RequestedBy(c);
      case Flush => var _, _ := FlushGetFence();
      case Clear(w, h, rect) => var _ := Clear(w, h, rect);
    }

    method StretchCall(a: StretchArgs, clips: seq<Rect>) returns (ghost part: seq<Item>)
      requires Valid()
      modifies this, list
      ensures Valid() && calls >= old(calls) && accepted == old(accepted) + part
      ensures part <= RequestedBy(Call.Stretch(a, clips))
      ensures AllOk() ==> part == RequestedBy(Call.Stretch(a, clips))
    {
      var status, done := Stretch(a, clips);
      part := StretchItems(a, clips[..done]);
      ItemsOfPrefix(a, clips, done);
      assert done == |clips| ==> clips[..done] == clips;
    }

    /** Any sequence of client calls: the list never stays full and the fence index stays in range; what is
        accepted are the first requests of each call in order, and while the driver succeeds, the
        submitted and the pending requests are all requests that were made, in order; and every release
        fence is closed, handed out or held. */
    method Execute(run: seq<Call>) returns (ghost taken: seq<seq<Item>>)
      requires Valid()
      modifies this, list, acqFence
      ensures Valid() && count < MAX_COUNT && acqCount < acqFence.Length
      ensures TakenFrom(run, taken) && accepted == old(accepted) + Joined(taken)
      ensures AllOk() ==> submitted + list[..count] == old(accepted) + Requested(run)
      ensures |accepted| == |submitted| + count + lost
      ensures Accounted(fences)
    {
      taken := [];
      for i := 0 to |run|
        invariant Valid() && TakenFrom(run[..i], taken) && accepted == old(accepted) + Joined(taken)
        invariant AllOk() ==> accepted == old(accepted) + Requested(run[..i])
      {
        ghost var part := Perform(run[i]);
        TakenNext(run, i, taken, part);
        JoinedNext(taken, part);
        RequestedNext(run, i);
        Regrouped(old(accepted), Joined(taken), part);
        Regrouped(old(accepted), Requested(run[..i]), part);
        taken := taken + [part];
      }
      assert run[..|run|] == run;
    }
  }
}
