/** What the C2D copybit context does, as a function of its state, of the calls and of the driver's answers:
    surface templates handed out per draw, the list of queued objects, the destination of a composition,
    and the draws the list is given to.

    `ok(n)` is the driver's answer to the n-th draw; `c2dFinish` succeeds.
 */
module C2dBlits {
  import opened Alignment

  const MAX_RGB := 32
  const MAX_YUV2 := 4
  const MAX_YUV3 := 1
  const MAX_SURFACES := MAX_RGB + MAX_YUV2 + MAX_YUV3 + 1
  const MAX_BLITS := 50
  const MAX_DIMENSION := 4096

  /** The supported formats by what the code tells apart; `Other` includes the three-plane YV12, which
      is not on the supported list. */
  datatype Format = Rgb | SemiPlanar | Tiled | Other

  /** No supported format has three planes. */
  datatype SurfaceType = RgbSurface | Yuv2Surface

  datatype Handle = NoHandle | Handle(gpuAddr: nat, ion: bool, width: nat)

  datatype Image = Image(w: nat, h: nat, format: Format, base: nat, handle: Handle)

  /** A queued object: the template it uses, the blit and the clip it was queued for, where it is meant to
      be drawn, and how wide the rows of its surface are. */
  datatype Object = Object(kind: SurfaceType, index: nat, blit: nat, clip: nat, dst: nat, rows: nat)

  /** Answers while one image becomes a surface. */
  datatype Answers = Answers(addr: nat, updateOk: bool)

  /** Answers during one stretch: obtaining temporary buffers (for the source also filling it), the two
      surfaces, and the copy back from the temporary destination. */
  datatype StretchAnswers = StretchAnswers(tempDstOk: bool, tempSrcOk: bool, tempIon: bool, dst: Answers,
                                           src: Answers, copyBackOk: bool)

  function TypeOf(format: Format): SurfaceType {
    if format.Rgb? then RgbSurface else Yuv2Surface
  }

  /** A temporary buffer is needed when the stride of a YUV image is not one that C2D can use. */
  predicate NeedsTemp(image: Image)
    requires image.format.Rgb? || image.handle.Handle?
  {
    !image.format.Rgb? && image.handle.width % 32 != 0
  }

  predicate TooLarge(image: Image) {
    image.w > MAX_DIMENSION || image.h > MAX_DIMENSION
  }

  /** Arguments that are refused before anything happens. */
  predicate Refused(dst: Image, src: Image) {
    TooLarge(src) || TooLarge(dst) || dst.format.Tiled? || dst.format.Other?
  }

  /** A surface can be made of the image: it brings an address with it or can be mapped at one. */
  predicate Mappable(image: Image, a: Answers) {
    && !image.format.Other? && image.handle.Handle? && a.updateOk
    && (image.handle.gpuAddr != 0 || (image.handle.ion && a.addr != 0))
  }

  /** The image itself, or the same in a temporary buffer, with rows that C2D can use. */
  function Surface(image: Image, temp: bool, ion: bool): Image {
    if temp then image.(handle := Handle(0, ion, AlignUp(image.w, 32))) else image
  }

  /** How wide the rows of an image are. */
  function RowsOf(image: Image): nat {
    if image.handle.Handle? then image.handle.width else 0
  }

  /** A draw is executed at once when a temporary buffer or a YUV destination is involved. */
  predicate DrawsAtOnce(dst: Image, src: Image)
    requires (dst.format.Rgb? || dst.handle.Handle?) && (src.format.Rgb? || src.handle.Handle?)
  {
    NeedsTemp(dst) || NeedsTemp(src) || !dst.format.Rgb?
  }

  /** A blit as it reaches the driver: images with temporary buffers in place, whether those were
      obtained, whether the source is visible at all, and the answers for the two surfaces. */
  datatype Request = Request(target: Image, source: Image, targetReady: bool, sourceReady: bool, visible: bool,
                             dst: Answers, src: Answers)

  function RequestFor(dst: Image, src: Image, visible: bool, a: StretchAnswers): Request
    requires (dst.format.Rgb? || dst.handle.Handle?) && (src.format.Rgb? || src.handle.Handle?)
  {
    Request(Surface(dst, NeedsTemp(dst), a.tempIon), Surface(src, NeedsTemp(src), a.tempIon),
            NeedsTemp(dst) ==> a.tempDstOk, NeedsTemp(src) ==> a.tempSrcOk, visible, a.dst, a.src)
  }

  predicate MapsTarget(r: Request) {
    r.targetReady && Mappable(r.target, r.dst)
  }

  /** The blit is queued: the destination counts as mapped or can be mapped, and so can the source. */
  predicate Accepted(r: Request, dstMapped: bool) {
    && r.targetReady && (dstMapped || Mappable(r.target, r.dst))
    && r.sourceReady && Mappable(r.source, r.src) && r.visible
  }

  /** What making a surface of an image maps; an image with an address of its own needs no mapping. */
  function Gained(image: Image, a: Answers): multiset<nat> {
    if image.handle.Handle? && image.handle.gpuAddr == 0 then multiset{a.addr} else multiset{}
  }

  // ---------------------------------------------------------------------------------------------
  // The state
  // ---------------------------------------------------------------------------------------------

  /** The blits that took the templates of each kind since the last draw was finished. */
  datatype Owners = Owners(rgb: seq<nat>, yuv2: seq<nat>) {
    function Of(kind: SurfaceType): seq<nat> {
      if kind.RgbSurface? then rgb else yuv2
    }

    function Taken(kind: SurfaceType, blit: nat): Owners {
      if kind.RgbSurface? then this.(rgb := rgb + [blit]) else this.(yuv2 := yuv2 + [blit])
    }
  }

  /** A mapping that was made for the destination of this composition, on the surface of one type. */
  datatype Made = Nothing | Mapping(base: nat, kind: SurfaceType, rows: nat) {
    /** It is the mapping of this destination, on the surface of this type. */
    predicate Is(b: nat, k: SurfaceType) {
      Mapping? && base == b && kind == k
    }
  }

  /** The destination: whether it counts as mapped, its base, the type that draws go to, and the mapping
      that is really there. */
  datatype Target = Target(mapped: bool, base: nat, kind: SurfaceType, made: Made)

  /** A list handed to the driver, with the destination and the templates as they were. */
  datatype Draw = Draw(kind: SurfaceType, made: Made, owners: Owners, items: seq<Object>, ok: bool)

  /** The addresses mapped, the templates, the queued objects and how many of them a flush has drawn, the
      destination, whether a cleanup is due, and what happened so far: draws, blits and clips queued. */
  datatype State = State(held: multiset<nat>, owners: Owners, list: seq<Object>, flushed: nat, target: Target,
                         waiting: bool, log: seq<Draw>, blits: nat, clips: nat)

  function Start(): State {
    State(multiset{}, Owners([], []), [], 0, Target(false, 0, RgbSurface, Nothing), false, [], 0, 0)
  }

  /** Everything is unmapped and all counts are reset. */
  function Emptied(v: State): State {
    v.(held := multiset{}, owners := Owners([], []), list := [], flushed := 0,
       target := Target(false, 0, v.target.kind, Nothing))
  }

  function DrawOf(v: State, ok: bool): Draw {
    Draw(v.target.kind, v.target.made, v.owners, v.list, ok)
  }

  /** The list is handed to the driver, unless it is empty. */
  function Drawn(v: State, ok: nat -> bool): State {
    if v.list == [] then v else v.(log := v.log + [DrawOf(v, ok(|v.log|))])
  }

  predicate DrawOk(v: State, ok: nat -> bool) {
    v.list == [] || ok(|v.log|)
  }

  function Finished(v: State, ok: nat -> bool): State {
    Emptied(Drawn(v, ok))
  }

  /** A flush leaves the list in place, and asks for a cleanup when everything succeeded. */
  function Flushed(v: State, ok: nat -> bool, flushOk: bool, fenceOk: bool): State {
    Drawn(v, ok).(flushed := if DrawOk(v, ok) then |v.list| else v.flushed,
                  waiting := v.waiting || (DrawOk(v, ok) && flushOk && fenceOk))
  }

  function Cleaned(v: State): State {
    if v.waiting then Emptied(v).(waiting := false) else v
  }

  /** A clear maps the destination on the RGB surface, whatever the current target type. */
  function Cleared(v: State, buf: Image, a: Answers): State {
    if v.target.mapped || !Mappable(buf, a) then v
    else v.(held := v.held + Gained(buf, a),
            target := Target(true, buf.base, v.target.kind, Mapping(buf.base, RgbSurface, RowsOf(buf))))
  }

  predicate AtLimit(v: State, kind: SurfaceType) {
    || |v.owners.rgb| == MAX_RGB || |v.owners.yuv2| == MAX_YUV2 || |v.list| == MAX_BLITS
    || v.target.kind != kind
  }

  /** The state in which a stretch to this type of target starts. */
  function Selected(v: State, kind: SurfaceType, ok: nat -> bool): State {
    var s := if AtLimit(v, kind) then Finished(v, ok) else v;
    s.(target := s.target.(kind := kind))
  }

  /** The destination after a stretch has mapped it, unless it counts as mapped already. */
  function TargetMapped(v: State, r: Request): State {
    if v.target.mapped then v
    else v.(held := v.held + Gained(r.target, r.dst),
            target := Target(true, r.target.base, v.target.kind,
                             Mapping(r.target.base, v.target.kind, RowsOf(r.target))))
  }

  /** The destination after a stretch that was not accepted. If the stretch itself mapped it, the mapping
      is undone, unless the image came with an address; the flag stays set. */
  function FailedTarget(t: Target, r: Request): Target {
    if t.mapped || !MapsTarget(r) then t
    else Target(true, r.target.base, t.kind,
                if r.target.handle.gpuAddr == 0 then Nothing else Mapping(r.target.base, t.kind, RowsOf(r.target)))
  }

  /** Both surfaces are mapped and the source has taken a template. */
  function Prepared(v: State, r: Request): State {
    var t := TargetMapped(v, r);
    t.(held := t.held + Gained(r.source, r.src), owners := t.owners.Taken(TypeOf(r.source.format), v.blits),
       blits := v.blits + 1)
  }

  /** The object that the clips of a blit from state `v` are copies of. */
  function ItemOf(v: State, r: Request): Object {
    var kind := TypeOf(r.source.format);
    Object(kind, |v.owners.Of(kind)|, v.blits, v.clips, r.target.base, RowsOf(r.source))
  }

  function Append(v: State, item: Object): State {
    v.(list := v.list + [item.(clip := v.clips)], clips := v.clips + 1)
  }

  /** One object per clip; a full list is drawn first. */
  function QueueOne(v: State, item: Object, ok: nat -> bool): State {
    Append(if |v.list| == MAX_BLITS then Finished(v, ok) else v, item)
  }

  function Queued(v: State, item: Object, clips: nat, ok: nat -> bool): State
    decreases clips
  {
    if clips == 0 then v else Queued(QueueOne(v, item, ok), item, clips - 1, ok)
  }

  /** What a blit that starts in state `v` leaves. */
  function Blitted(v: State, r: Request, clips: nat, atOnce: bool, ok: nat -> bool): State {
    if !Accepted(r, v.target.mapped) then v.(target := FailedTarget(v.target, r))
    else
      var q := Queued(Prepared(v, r), ItemOf(v, r), clips, ok);
      if atOnce then Finished(q, ok) else q
  }

  // ---------------------------------------------------------------------------------------------
  // Runs
  // ---------------------------------------------------------------------------------------------

  /** A client call with its answers, or a round of the cleanup thread. */
  datatype Call =
    | Clear(buf: Image, answers: Answers, fillOk: bool)
    | Stretch(dst: Image, src: Image, count: nat, visible: bool, stretchAnswers: StretchAnswers)
    | Flush(flushOk: bool, fenceOk: bool)
    | Finish
    | Cleanup

  /** A YUV image of a stretch comes with a handle, which is read without a check. */
  predicate WellFormed(c: Call) {
    c.Stretch? ==> (c.dst.format.Rgb? || c.dst.handle.Handle?) && (c.src.format.Rgb? || c.src.handle.Handle?)
  }

  function RequestOf(c: Call): Request
    requires c.Stretch? && WellFormed(c)
  {
    RequestFor(c.dst, c.src, c.visible, c.stretchAnswers)
  }

  /** The state that a stretch starts in. */
  function BeforeOf(v: State, c: Call, ok: nat -> bool): State
    requires c.Stretch?
  {
    Selected(v, TypeOf(c.dst.format), ok)
  }

  function Apply(v: State, c: Call, ok: nat -> bool): State
    requires WellFormed(c)
  {
    match c
    case Clear(buf, a, _) => Cleared(v, buf, a)
    case Stretch(dst, src, clips, _, _) =>
      if Refused(dst, src) then v
      else Blitted(BeforeOf(v, c, ok), RequestOf(c), clips, DrawsAtOnce(dst, src), ok)
    case Flush(flushOk, fenceOk) => Flushed(v, ok, flushOk, fenceOk)
    case Finish => Finished(v, ok)
    case Cleanup => Cleaned(v)
  }

  predicate AllWellFormed(calls: seq<Call>) {
    forall c :: c in calls ==> WellFormed(c)
  }

  function Run(v: State, calls: seq<Call>, ok: nat -> bool): State
    requires AllWellFormed(calls)
    decreases |calls|
  {
    if calls == [] then v else Apply(Run(v, calls[..|calls| - 1], ok), calls[|calls| - 1], ok)
  }

  // ---------------------------------------------------------------------------------------------
  // What is drawn, and onto what
  // ---------------------------------------------------------------------------------------------

  /** The template that the object uses is still the one its blit took. */
  predicate Held(owners: Owners, o: Object) {
    o.index < |owners.Of(o.kind)| && owners.Of(o.kind)[o.index] == o.blit
  }

  /** The object uses its own template, and what is drawn on is the mapping of its own destination. */
  predicate Placed(kind: SurfaceType, made: Made, owners: Owners, o: Object) {
    Held(owners, o) && made.Is(o.dst, kind)
  }

  predicate Right(d: Draw) {
    forall i :: 0 <= i < |d.items| ==> Placed(d.kind, d.made, d.owners, d.items[i])
  }

  predicate AllRight(log: seq<Draw>) {
    forall i :: 0 <= i < |log| ==> Right(log[i])
  }

  /** A draw of the list would be right. */
  predicate Ready(v: State) {
    forall i :: 0 <= i < |v.list| ==> Placed(v.target.kind, v.target.made, v.owners, v.list[i])
  }

  /** A destination that counts as mapped is mapped, on the surface that is drawn on. */
  predicate Sound(v: State) {
    v.target.mapped ==> v.target.made.Is(v.target.base, v.target.kind)
  }

  /** Every draw so far was right, and so would be the next. */
  predicate Faultless(v: State) {
    AllRight(v.log) && Ready(v)
  }

  /** The list is bounded, and a mapping is there only if the destination counts as mapped. */
  predicate Bounded(v: State) {
    |v.list| <= MAX_BLITS && (v.target.made.Mapping? ==> v.target.mapped)
  }

  /** A call keeps things right, told from the fields of the context before it and from its arguments. A
      clear comes while the target is RGB; a stretch does not fail after it has mapped the destination,
      names the destination of the composition, and its clips fit. */
  predicate Legal(v: State, c: Call, ok: nat -> bool)
    requires WellFormed(c)
  {
    match c
    case Clear(buf, a, _) => !v.target.mapped && Mappable(buf, a) ==> v.target.kind == RgbSurface
    case Stretch(dst, src, clips, _, _) =>
      Refused(dst, src) || LegalBlit(BeforeOf(v, c, ok), RequestOf(c), clips)
    case Flush(_, _) => true
    case Finish => true
    case Cleanup => true
  }

  predicate LegalBlit(b: State, r: Request, clips: nat) {
    if Accepted(r, b.target.mapped)
    then |b.list| + clips <= MAX_BLITS && (clips > 0 && b.target.mapped ==> b.target.base == r.target.base)
    else !b.target.mapped && MapsTarget(r) ==> r.target.handle.gpuAddr != 0
  }

  lemma DrawnFaultlessIff(v: State, ok: nat -> bool)
    ensures AllRight(Drawn(v, ok).log) <==> Faultless(v)
  {
    if v.list != [] {
      var d := DrawOf(v, ok(|v.log|));
      assert Right(d) <==> Ready(v);
      assert Drawn(v, ok).log == v.log + [d];
      assert (v.log + [d])[|v.log|] == d;
      assert forall i :: 0 <= i < |v.log| ==> (v.log + [d])[i] == v.log[i];
    }
  }

  lemma FinishedFaultlessIff(v: State, ok: nat -> bool)
    ensures Faultless(Finished(v, ok)) <==> Faultless(v)
    ensures Bounded(Finished(v, ok)) && Sound(Finished(v, ok))
  {
    DrawnFaultlessIff(v, ok);
  }

  /** Queueing one more object does not mend what is wrong. */
  lemma FaultStays(v: State, item: Object, ok: nat -> bool)
    requires !Faultless(v)
    ensures !Faultless(QueueOne(v, item, ok))
  {
    if |v.list| == MAX_BLITS {
      FinishedFaultlessIff(v, ok);
      assert !AllRight(Finished(v, ok).log);
    } else if AllRight(v.log) {
      var i :| 0 <= i < |v.list| && !Placed(v.target.kind, v.target.made, v.owners, v.list[i]);
      assert QueueOne(v, item, ok).list[i] == v.list[i];
    }
  }

  /** An object that is queued after the list was drawn in its middle has lost its template. */
  lemma LateIsWrong(v: State, item: Object, ok: nat -> bool)
    requires |v.list| == MAX_BLITS
    ensures !Faultless(QueueOne(v, item, ok))
  {
    var q := QueueOne(v, item, ok);
    assert q.list == [item.(clip := Finished(v, ok).clips)] && q.owners == Owners([], []);
    assert !Placed(q.target.kind, q.target.made, q.owners, q.list[0]);
  }

  lemma {:induction false} QueuedBounded(v: State, item: Object, clips: nat, ok: nat -> bool)
    requires Bounded(v)
    ensures Bounded(Queued(v, item, clips, ok))
    decreases clips
  {
    if clips > 0 {
      QueuedBounded(QueueOne(v, item, ok), item, clips - 1, ok);
    }
  }

  lemma {:induction false} QueuedStaysFaulty(v: State, item: Object, clips: nat, ok: nat -> bool)
    requires !Faultless(v)
    ensures !Faultless(Queued(v, item, clips, ok))
    decreases clips
  {
    if clips > 0 {
      FaultStays(v, item, ok);
      QueuedStaysFaulty(QueueOne(v, item, ok), item, clips - 1, ok);
    }
  }

  /** Clips that fit extend the list with copies of the object, and change nothing else. */
  lemma {:induction false} QueuedFits(v: State, item: Object, clips: nat, ok: nat -> bool)
    requires |v.list| + clips <= MAX_BLITS
    ensures var q := Queued(v, item, clips, ok);
            && q == v.(list := q.list, clips := v.clips + clips)
            && |q.list| == |v.list| + clips && q.list[..|v.list|] == v.list
            && forall k :: |v.list| <= k < |q.list| ==> q.list[k] == item.(clip := v.clips + k - |v.list|)
    decreases clips
  {
    if clips > 0 {
      var next := QueueOne(v, item, ok);
      QueuedFits(next, item, clips - 1, ok);
      var q := Queued(v, item, clips, ok);
      assert q.list[..|v.list|] == q.list[..|next.list|][..|v.list|];
      assert q.list[|v.list|] == q.list[..|next.list|][|v.list|];
    }
  }

  /** Queueing an object that holds its template leaves things right if and only if its clips fit and it
      is meant for the destination that is mapped. */
  lemma {:induction false} QueuedFaultlessIff(v: State, item: Object, clips: nat, ok: nat -> bool)
    requires Faultless(v) && |v.list| <= MAX_BLITS && Held(v.owners, item)
    ensures Faultless(Queued(v, item, clips, ok)) <==>
            |v.list| + clips <= MAX_BLITS && (clips > 0 ==> v.target.made.Is(item.dst, v.target.kind))
    decreases clips
  {
    if clips > 0 {
      var next := QueueOne(v, item, ok);
      if |v.list| == MAX_BLITS {
        LateIsWrong(v, item, ok);
        QueuedStaysFaulty(next, item, clips - 1, ok);
      } else {
        assert next.list[|v.list|] == item.(clip := v.clips);
        if v.target.made.Is(item.dst, v.target.kind) {
          QueuedFaultlessIff(next, item, clips - 1, ok);
        } else {
          assert !Placed(next.target.kind, next.target.made, next.owners, next.list[|v.list|]);
          QueuedStaysFaulty(next, item, clips - 1, ok);
        }
      }
    }
  }

  /** A blit takes a template and makes or finds a mapping; what is queued stays right. */
  lemma PreparedFaultless(v: State, r: Request)
    requires Faultless(v) && Bounded(v) && Sound(v)
    ensures var p := Prepared(v, r);
            && Faultless(p) && Bounded(p) && Sound(p) && p.list == v.list && p.target.mapped
            && p.target.base == (if v.target.mapped then v.target.base else r.target.base)
            && Held(p.owners, ItemOf(v, r))
  {
    var p := Prepared(v, r);
    forall i | 0 <= i < |p.list|
      ensures Placed(p.target.kind, p.target.made, p.owners, p.list[i])
    {
      assert Placed(v.target.kind, v.target.made, v.owners, v.list[i]);
    }
  }

  /** A blit keeps every draw right and the destination sound, if and only if it is legal. */
  lemma BlittedKeepsIff(v: State, r: Request, clips: nat, atOnce: bool, ok: nat -> bool)
    requires Faultless(v) && Bounded(v) && Sound(v)
    ensures var b := Blitted(v, r, clips, atOnce, ok);
            Bounded(b) && (Faultless(b) && Sound(b) <==> LegalBlit(v, r, clips))
  {
    if Accepted(r, v.target.mapped) {
      var p, item := Prepared(v, r), ItemOf(v, r);
      PreparedFaultless(v, r);
      QueuedBounded(p, item, clips, ok);
      QueuedFaultlessIff(p, item, clips, ok);
      if |p.list| + clips <= MAX_BLITS {
        QueuedFits(p, item, clips, ok);
      }
      FinishedFaultlessIff(Queued(p, item, clips, ok), ok);
    } else {
      NotAcceptedKeepsIff(v, r);
    }
  }

  lemma NotAcceptedKeepsIff(v: State, r: Request)
    requires Faultless(v) && Bounded(v) && Sound(v) && !Accepted(r, v.target.mapped)
    ensures var b := v.(target := FailedTarget(v.target, r));
            && Bounded(b)
            && (Faultless(b) && Sound(b) <==> (!v.target.mapped && MapsTarget(r) ==> r.target.handle.gpuAddr != 0))
  {
    var b := v.(target := FailedTarget(v.target, r));
    if !v.target.mapped {
      NothingQueued(v);
      assert b.list == [];
    } else {
      assert b == v;
    }
  }

  /** As long as things are right, nothing is queued without a destination. */
  lemma NothingQueued(v: State)
    requires Ready(v) && Bounded(v) && !v.target.mapped
    ensures v.list == []
  {
    assert v.list != [] ==> Placed(v.target.kind, v.target.made, v.owners, v.list[0]);
  }

  lemma SelectedKeeps(v: State, kind: SurfaceType, ok: nat -> bool)
    requires Faultless(v) && Bounded(v) && Sound(v)
    ensures var s := Selected(v, kind, ok); Faultless(s) && Bounded(s) && Sound(s)
  {
    FinishedFaultlessIff(v, ok);
  }

  /** From a state in which every draw was right and would be, and the destination is sound, a call keeps
      this if and only if it is legal. */
  lemma CallKeepsIff(v: State, c: Call, ok: nat -> bool)
    requires WellFormed(c) && Faultless(v) && Bounded(v) && Sound(v)
    ensures var v' := Apply(v, c, ok);
            Bounded(v') && (Faultless(v') && Sound(v') <==> Legal(v, c, ok))
  {
    match c
    case Clear(buf, a, _) =>
      if !v.target.mapped {
        NothingQueued(v);
      }
    case Stretch(dst, src, clips, _, _) =>
      if !Refused(dst, src) {
        SelectedKeeps(v, TypeOf(dst.format), ok);
        BlittedKeepsIff(BeforeOf(v, c, ok), RequestOf(c), clips, DrawsAtOnce(dst, src), ok);
      }
    case Flush(flushOk, fenceOk) =>
      DrawnFaultlessIff(v, ok);
    case Finish =>
      FinishedFaultlessIff(v, ok);
    case Cleanup =>
  }

  predicate KeptThroughout(v: State, calls: seq<Call>, ok: nat -> bool)
    requires AllWellFormed(calls)
    decreases |calls|
  {
    && Faultless(Run(v, calls, ok)) && Sound(Run(v, calls, ok))
    && (calls != [] ==> KeptThroughout(v, calls[..|calls| - 1], ok))
  }

  predicate LegalRun(v: State, calls: seq<Call>, ok: nat -> bool)
    requires AllWellFormed(calls)
    decreases |calls|
  {
    calls != [] ==>
      var front := calls[..|calls| - 1];
      LegalRun(v, front, ok) && Legal(Run(v, front, ok), calls[|calls| - 1], ok)
  }

  /** Over every run of calls: each object that is drawn uses the template its blit took and goes to the
      mapping of its own destination, and the destination stays sound, if and only if every call is
      legal. */
  lemma {:induction false} RunKeepsIff(v: State, calls: seq<Call>, ok: nat -> bool)
    requires AllWellFormed(calls) && Faultless(v) && Bounded(v) && Sound(v)
    ensures KeptThroughout(v, calls, ok) <==> LegalRun(v, calls, ok)
    ensures LegalRun(v, calls, ok) ==> Bounded(Run(v, calls, ok))
    decreases |calls|
  {
    if calls != [] {
      var front := calls[..|calls| - 1];
      RunKeepsIff(v, front, ok);
      if LegalRun(v, front, ok) {
        assert KeptThroughout(v, front, ok);
        CallKeepsIff(Run(v, front, ok), calls[|calls| - 1], ok);
      }
    }
  }

  // ---------------------------------------------------------------------------------------------
  // How often a clip is drawn
  // ---------------------------------------------------------------------------------------------

  function Copies(items: seq<Object>, clip: nat): nat {
    if items == [] then 0
    else Copies(items[..|items| - 1], clip) + if items[|items| - 1].clip == clip then 1 else 0
  }

  /** How many successful draws a clip was part of. */
  function TimesDrawn(log: seq<Draw>, clip: nat): nat {
    if log == [] then 0
    else
      var d := log[|log| - 1];
      TimesDrawn(log[..|log| - 1], clip) + if d.ok then Copies(d.items, clip) else 0
  }

  predicate Listed(v: State, clip: nat) {
    exists i :: 0 <= i < |v.list| && v.list[i].clip == clip
  }

  /** Of all clips that were ever queued, none was drawn twice, and all that are gone were drawn. */
  ghost predicate DrawnOnce(v: State) {
    forall clip: nat :: clip < v.clips ==>
      TimesDrawn(v.log, clip) <= 1 && (Listed(v, clip) || TimesDrawn(v.log, clip) == 1)
  }

  /** The clips of the list are the last ones queued. */
  predicate Numbered(v: State) {
    && v.flushed <= |v.list| <= v.clips
    && forall i :: 0 <= i < |v.list| ==> v.list[i].clip == v.clips - |v.list| + i
  }

  /** The clips that are gone from the list or that a flush has drawn. */
  function Passed(v: State): int {
    v.clips - |v.list| + v.flushed
  }

  /** What a flush drew was drawn, and what is still to be drawn was not. */
  ghost predicate Tidy(v: State) {
    && Numbered(v)
    && forall clip: nat ::
         && (clip >= Passed(v) ==> TimesDrawn(v.log, clip) == 0)
         && (v.clips - |v.list| <= clip < Passed(v) ==> TimesDrawn(v.log, clip) >= 1)
  }

  ghost predicate PassedOnce(v: State) {
    forall clip: nat :: clip < Passed(v) ==> TimesDrawn(v.log, clip) == 1
  }

  lemma DrawnOnceIsPassedOnce(v: State)
    requires Tidy(v)
    ensures DrawnOnce(v) <==> PassedOnce(v)
  {
    forall clip: nat | clip < v.clips
      ensures Listed(v, clip) <==> v.clips - |v.list| <= clip
    {
      if v.clips - |v.list| <= clip {
        assert v.list[clip - (v.clips - |v.list|)].clip == clip;
      }
    }
  }

  lemma {:induction false} CopiesOfNumbered(items: seq<Object>, first: nat, clip: nat)
    requires forall i :: 0 <= i < |items| ==> items[i].clip == first + i
    ensures Copies(items, clip) == if first <= clip < first + |items| then 1 else 0
  {
    if items != [] {
      CopiesOfNumbered(items[..|items| - 1], first, clip);
    }
  }

  /** A draw counts once for each clip of the list, if it succeeds. */
  lemma TimesAfterDraw(v: State, ok: nat -> bool, clip: nat)
    requires Numbered(v)
    ensures TimesDrawn(Drawn(v, ok).log, clip) == TimesDrawn(v.log, clip) +
            if v.list != [] && ok(|v.log|) && v.clips - |v.list| <= clip < v.clips then 1 else 0
  {
    if v.list != [] {
      var d := DrawOf(v, ok(|v.log|));
      assert (v.log + [d])[..|v.log|] == v.log;
      CopiesOfNumbered(v.list, v.clips - |v.list|, clip);
    }
  }

  /** A draw that ends in a finish succeeds on a list that no flush has drawn, or fails on one that a
      flush has drawn completely. */
  predicate FinishesOnce(v: State, ok: nat -> bool) {
    v.list == [] || (if ok(|v.log|) then v.flushed == 0 else v.flushed == |v.list|)
  }

  lemma FinishedOnceIff(v: State, ok: nat -> bool)
    requires Tidy(v)
    ensures Tidy(Finished(v, ok)) && (PassedOnce(Finished(v, ok)) <==> PassedOnce(v) && FinishesOnce(v, ok))
  {
    var f := Finished(v, ok);
    forall clip: nat
      ensures TimesDrawn(f.log, clip) == TimesDrawn(v.log, clip) +
              if v.list != [] && ok(|v.log|) && v.clips - |v.list| <= clip < v.clips then 1 else 0
    {
      TimesAfterDraw(v, ok, clip);
    }
    if v.list != [] && !FinishesOnce(v, ok) {
      var clip: nat := v.clips - if ok(|v.log|) then |v.list| else 1;
      assert TimesDrawn(f.log, clip) != 1;
    }
  }

  predicate FlushesOnce(v: State, ok: nat -> bool) {
    v.list == [] || !ok(|v.log|) || v.flushed == 0
  }

  lemma FlushedOnceIff(v: State, ok: nat -> bool, flushOk: bool, fenceOk: bool)
    requires Tidy(v)
    ensures var f := Flushed(v, ok, flushOk, fenceOk);
            Tidy(f) && (PassedOnce(f) <==> PassedOnce(v) && FlushesOnce(v, ok))
  {
    var f := Flushed(v, ok, flushOk, fenceOk);
    forall clip: nat
      ensures TimesDrawn(f.log, clip) == TimesDrawn(v.log, clip) +
              if v.list != [] && ok(|v.log|) && v.clips - |v.list| <= clip < v.clips then 1 else 0
    {
      TimesAfterDraw(v, ok, clip);
    }
    if !FlushesOnce(v, ok) {
      assert TimesDrawn(f.log, v.clips - |v.list|) != 1;
    }
  }

  /** A cleanup that is due finds nothing that is still to be drawn. */
  predicate CleansOnce(v: State) {
    v.waiting ==> v.flushed == |v.list|
  }

  lemma CleanedOnceIff(v: State)
    requires Tidy(v)
    ensures Tidy(Cleaned(v)) && (PassedOnce(Cleaned(v)) <==> PassedOnce(v) && CleansOnce(v))
  {
    if !CleansOnce(v) {
      assert TimesDrawn(v.log, v.clips - 1) == 0;
    }
  }

  lemma AppendOnceIff(v: State, item: Object)
    requires Tidy(v)
    ensures Tidy(Append(v, item)) && (PassedOnce(Append(v, item)) <==> PassedOnce(v))
  {
    assert Passed(Append(v, item)) == Passed(v);
  }

  /** Every draw in the middle of the clips finishes once. */
  predicate QueuesOnce(v: State, item: Object, clips: nat, ok: nat -> bool)
    decreases clips
  {
    clips > 0 ==>
      (|v.list| == MAX_BLITS ==> FinishesOnce(v, ok)) && QueuesOnce(QueueOne(v, item, ok), item, clips - 1, ok)
  }

  lemma {:induction false} QueuedOnceIff(v: State, item: Object, clips: nat, ok: nat -> bool)
    requires Tidy(v)
    ensures var q := Queued(v, item, clips, ok);
            Tidy(q) && (PassedOnce(q) <==> PassedOnce(v) && QueuesOnce(v, item, clips, ok))
    decreases clips
  {
    if clips > 0 {
      if |v.list| == MAX_BLITS {
        FinishedOnceIff(v, ok);
        AppendOnceIff(Finished(v, ok), item);
      } else {
        AppendOnceIff(v, item);
      }
      QueuedOnceIff(QueueOne(v, item, ok), item, clips - 1, ok);
    }
  }

  predicate BlitsOnce(v: State, r: Request, clips: nat, atOnce: bool, ok: nat -> bool) {
    Accepted(r, v.target.mapped) ==>
      var p, item := Prepared(v, r), ItemOf(v, r);
      && QueuesOnce(p, item, clips, ok)
      && (atOnce ==> FinishesOnce(Queued(p, item, clips, ok), ok))
  }

  lemma BlittedOnceIff(v: State, r: Request, clips: nat, atOnce: bool, ok: nat -> bool)
    requires Tidy(v)
    ensures var b := Blitted(v, r, clips, atOnce, ok);
            Tidy(b) && (PassedOnce(b) <==> PassedOnce(v) && BlitsOnce(v, r, clips, atOnce, ok))
  {
    if Accepted(r, v.target.mapped) {
      var p, item := Prepared(v, r), ItemOf(v, r);
      assert Tidy(p) && (PassedOnce(p) <==> PassedOnce(v));
      QueuedOnceIff(p, item, clips, ok);
      FinishedOnceIff(Queued(p, item, clips, ok), ok);
    }
  }

  /** A call draws no clip again and drops none undrawn, told from the state before it and the answers. */
  predicate CallsOnce(v: State, c: Call, ok: nat -> bool)
    requires WellFormed(c)
  {
    match c
    case Clear(_, _, _) => true
    case Stretch(dst, src, clips, _, _) =>
      || Refused(dst, src)
      || (&& (AtLimit(v, TypeOf(dst.format)) ==> FinishesOnce(v, ok))
          && BlitsOnce(BeforeOf(v, c, ok), RequestOf(c), clips, DrawsAtOnce(dst, src), ok))
    case Flush(_, _) => FlushesOnce(v, ok)
    case Finish => FinishesOnce(v, ok)
    case Cleanup => CleansOnce(v)
  }

  lemma SelectedOnceIff(v: State, kind: SurfaceType, ok: nat -> bool)
    requires Tidy(v)
    ensures var s := Selected(v, kind, ok);
            Tidy(s) && (PassedOnce(s) <==> PassedOnce(v) && (AtLimit(v, kind) ==> FinishesOnce(v, ok)))
  {
    FinishedOnceIff(v, ok);
    var f := if AtLimit(v, kind) then Finished(v, ok) else v;
    assert Passed(Selected(v, kind, ok)) == Passed(f);
  }

  lemma CallOnceIff(v: State, c: Call, ok: nat -> bool)
    requires WellFormed(c) && Tidy(v)
    ensures var v' := Apply(v, c, ok);
            Tidy(v') && (PassedOnce(v') <==> PassedOnce(v) && CallsOnce(v, c, ok))
  {
    match c
    case Clear(_, _, _) =>
    case Stretch(dst, src, clips, _, _) =>
      if !Refused(dst, src) {
        SelectedOnceIff(v, TypeOf(dst.format), ok);
        BlittedOnceIff(BeforeOf(v, c, ok), RequestOf(c), clips, DrawsAtOnce(dst, src), ok);
      }
    case Flush(flushOk, fenceOk) => FlushedOnceIff(v, ok, flushOk, fenceOk);
    case Finish => FinishedOnceIff(v, ok);
    case Cleanup => CleanedOnceIff(v);
  }

  predicate OnceRun(v: State, calls: seq<Call>, ok: nat -> bool)
    requires AllWellFormed(calls)
    decreases |calls|
  {
    calls != [] ==>
      var front := calls[..|calls| - 1];
      OnceRun(v, front, ok) && CallsOnce(Run(v, front, ok), calls[|calls| - 1], ok)
  }

  /** After any run of calls, every clip that was queued has been drawn once or waits in the list, if and
      only if no call of the run draws a flushed list again or drops one that was not drawn. What has gone
      wrong once is not made good later. */
  lemma {:induction false} DrawnOnceIff(v: State, calls: seq<Call>, ok: nat -> bool)
    requires AllWellFormed(calls) && Tidy(v)
    ensures Tidy(Run(v, calls, ok))
    ensures DrawnOnce(Run(v, calls, ok)) <==> DrawnOnce(v) && OnceRun(v, calls, ok)
    decreases |calls|
  {
    DrawnOnceIsPassedOnce(v);
    if calls != [] {
      var front := calls[..|calls| - 1];
      DrawnOnceIff(v, front, ok);
      DrawnOnceIsPassedOnce(Run(v, front, ok));
      CallOnceIff(Run(v, front, ok), calls[|calls| - 1], ok);
      DrawnOnceIsPassedOnce(Run(v, calls, ok));
    }
  }

  /** Every flush succeeds and is followed by the cleanup it asks for. */
  predicate Disciplined(calls: seq<Call>) {
    forall i :: 0 <= i < |calls| && calls[i].Flush? ==>
      calls[i].flushOk && calls[i].fenceOk && (i + 1 < |calls| ==> calls[i + 1].Cleanup?)
  }

  /** Nothing is flushed and no cleanup is due, or everything is flushed and a cleanup is due. */
  predicate Settled(v: State, flushed: bool) {
    if flushed then v.waiting && v.flushed == |v.list| else !v.waiting && v.flushed == 0
  }

  lemma {:induction false} QueuedSettled(v: State, item: Object, clips: nat, ok: nat -> bool)
    requires Settled(v, false) && (forall n :: ok(n))
    ensures Settled(Queued(v, item, clips, ok), false) && QueuesOnce(v, item, clips, ok)
    decreases clips
  {
    if clips > 0 {
      QueuedSettled(QueueOne(v, item, ok), item, clips - 1, ok);
    }
  }

  lemma CallSettled(v: State, c: Call, ok: nat -> bool)
    requires WellFormed(c) && (forall n :: ok(n)) && (c.Flush? ==> c.flushOk && c.fenceOk)
    requires Settled(v, false) || (c.Cleanup? && Settled(v, true))
    ensures Settled(Apply(v, c, ok), c.Flush?) && CallsOnce(v, c, ok)
  {
    if c.Stretch? && !Refused(c.dst, c.src) {
      var b := BeforeOf(v, c, ok);
      QueuedSettled(Prepared(b, RequestOf(c)), ItemOf(b, RequestOf(c)), c.count, ok);
    }
  }

  /** When every draw succeeds and every flush is cleaned up before the next call, every clip that was ever
      queued is drawn once or still in the list, whatever else the client does. */
  lemma {:induction false} DisciplinedDrawsOnce(calls: seq<Call>, ok: nat -> bool)
    requires AllWellFormed(calls) && Disciplined(calls) && (forall n :: ok(n))
    ensures Settled(Run(Start(), calls, ok), calls != [] && calls[|calls| - 1].Flush?)
    ensures OnceRun(Start(), calls, ok) && DrawnOnce(Run(Start(), calls, ok))
    decreases |calls|
  {
    if calls != [] {
      var front := calls[..|calls| - 1];
      DisciplinedDrawsOnce(front, ok);
      CallSettled(Run(Start(), front, ok), calls[|calls| - 1], ok);
    }
    DrawnOnceIff(Start(), calls, ok);
  }

  // ---------------------------------------------------------------------------------------------
  // Rows that C2D can use
  // ---------------------------------------------------------------------------------------------

  /** A YUV surface has rows of a multiple of 32. */
  predicate Usable(kind: SurfaceType, rows: nat) {
    kind.Yuv2Surface? ==> rows % 32 == 0
  }

  predicate MadeUsable(made: Made) {
    made.Mapping? ==> Usable(made.kind, made.rows)
  }

  predicate ItemsUsable(items: seq<Object>) {
    forall i :: 0 <= i < |items| ==> Usable(items[i].kind, items[i].rows)
  }

  predicate LogUsable(log: seq<Draw>) {
    forall i :: 0 <= i < |log| ==> MadeUsable(log[i].made) && ItemsUsable(log[i].items)
  }

  /** Every surface that was drawn with, or will be, has usable rows. */
  predicate AllUsable(v: State) {
    LogUsable(v.log) && ItemsUsable(v.list) && MadeUsable(v.target.made)
  }

  lemma FinishedUsable(v: State, ok: nat -> bool)
    requires AllUsable(v)
    ensures AllUsable(Drawn(v, ok)) && AllUsable(Finished(v, ok))
  {
    var log := Drawn(v, ok).log;
    assert forall i :: 0 <= i < |v.log| ==> log[i] == v.log[i];
  }

  lemma {:induction false} QueuedUsable(v: State, item: Object, clips: nat, ok: nat -> bool)
    requires AllUsable(v) && Usable(item.kind, item.rows)
    ensures AllUsable(Queued(v, item, clips, ok))
    decreases clips
  {
    if clips > 0 {
      FinishedUsable(v, ok);
      QueuedUsable(QueueOne(v, item, ok), item, clips - 1, ok);
    }
  }

  /** Whatever a stretch is given, the surfaces it makes have usable rows; those of a temporary buffer are just
      wide enough for the image. */
  lemma RequestUsable(dst: Image, src: Image, visible: bool, a: StretchAnswers)
    requires (dst.format.Rgb? || dst.handle.Handle?) && (src.format.Rgb? || src.handle.Handle?)
    ensures var r := RequestFor(dst, src, visible, a);
            && Usable(TypeOf(dst.format), RowsOf(r.target)) && r.target.format == dst.format
            && Usable(TypeOf(src.format), RowsOf(r.source)) && r.source.format == src.format
            && (Misaligned(dst) ==> LeastMultiple(RowsOf(r.target), 32, dst.w))
            && (Misaligned(src) ==> LeastMultiple(RowsOf(r.source), 32, src.w))
  {
    AlignUpMultiple(dst.w, 32);
    AlignUpMultiple(src.w, 32);
    LeastMultipleIsAlignUp(AlignUp(dst.w, 32), 32, dst.w);
    LeastMultipleIsAlignUp(AlignUp(src.w, 32), 32, src.w);
  }

  lemma BlittedUsable(v: State, r: Request, clips: nat, atOnce: bool, ok: nat -> bool)
    requires AllUsable(v) && Usable(v.target.kind, RowsOf(r.target)) && Usable(TypeOf(r.source.format), RowsOf(r.source))
    ensures AllUsable(Blitted(v, r, clips, atOnce, ok))
  {
    if Accepted(r, v.target.mapped) {
      var p, item := Prepared(v, r), ItemOf(v, r);
      assert AllUsable(p);
      QueuedUsable(p, item, clips, ok);
      FinishedUsable(Queued(p, item, clips, ok), ok);
    }
  }

  lemma CallUsable(v: State, c: Call, ok: nat -> bool)
    requires WellFormed(c) && AllUsable(v)
    ensures AllUsable(Apply(v, c, ok))
  {
    FinishedUsable(v, ok);
    if c.Stretch? && !Refused(c.dst, c.src) {
      RequestUsable(c.dst, c.src, c.visible, c.stretchAnswers);
      BlittedUsable(BeforeOf(v, c, ok), RequestOf(c), c.count, DrawsAtOnce(c.dst, c.src), ok);
    }
  }

  /** Over every run, every YUV surface that is drawn from or onto has rows of a multiple of 32. */
  lemma {:induction false} RunUsable(v: State, calls: seq<Call>, ok: nat -> bool)
    requires AllWellFormed(calls) && AllUsable(v)
    ensures AllUsable(Run(v, calls, ok))
    decreases |calls|
  {
    if calls != [] {
      var front := calls[..|calls| - 1];
      RunUsable(v, front, ok);
      CallUsable(Run(v, front, ok), calls[|calls| - 1], ok);
    }
  }

  // ---------------------------------------------------------------------------------------------
  // When a stretch succeeds
  // ---------------------------------------------------------------------------------------------

  /** A YUV image with rows that C2D cannot use. */
  predicate Misaligned(image: Image) {
    !image.format.Rgb? && image.handle.Handle? && image.handle.width % 32 != 0
  }

  /** A surface can be made of the image, in a temporary buffer if it is misaligned. */
  predicate SurfacePossible(image: Image, tempOk: bool, tempIon: bool, a: Answers) {
    && !image.format.Other? && image.handle.Handle? && a.updateOk
    && if Misaligned(image) then tempOk && tempIon && a.addr != 0
       else image.handle.gpuAddr != 0 || (image.handle.ion && a.addr != 0)
  }

  /** What a stretch needs, told from its arguments and the answers: images of at most 4096 by 4096, an RGB or
      semi-planar destination, a surface for the source, and one for the destination unless one counts as
      mapped; a misaligned destination needs its temporary buffer in any case, and the copy back from it. */
  predicate StretchPossible(dst: Image, src: Image, visible: bool, a: StretchAnswers, dstMapped: bool) {
    && src.w <= 4096 && src.h <= 4096 && dst.w <= 4096 && dst.h <= 4096
    && (dst.format.Rgb? || dst.format.SemiPlanar?) && visible
    && (Misaligned(dst) ==> a.tempDstOk && a.copyBackOk)
    && (dstMapped || SurfacePossible(dst, a.tempDstOk, a.tempIon, a.dst))
    && SurfacePossible(src, a.tempSrcOk, a.tempIon, a.src)
  }

  lemma PossibleIff(dst: Image, src: Image, visible: bool, a: StretchAnswers, dstMapped: bool)
    requires (dst.format.Rgb? || dst.handle.Handle?) && (src.format.Rgb? || src.handle.Handle?)
    ensures StretchPossible(dst, src, visible, a, dstMapped) <==>
            && !Refused(dst, src) && (NeedsTemp(dst) ==> a.copyBackOk)
            && Accepted(RequestFor(dst, src, visible, a), dstMapped)
  {
  }

  // ---------------------------------------------------------------------------------------------
  // When a stretch draws
  // ---------------------------------------------------------------------------------------------

  /** There is a template of either kind and room for an object. */
  predicate HasRoom(v: State) {
    |v.owners.rgb| < 32 && |v.owners.yuv2| < 4 && |v.list| < 50
  }

  /** A stretch starts with room and with its own target type, and nothing is drawn to get there if that was
      so before. */
  lemma SelectedHasRoom(v: State, kind: SurfaceType, ok: nat -> bool)
    requires |v.owners.rgb| <= 32 && |v.owners.yuv2| <= 4 && |v.list| <= 50
    ensures var s := Selected(v, kind, ok);
            && HasRoom(s) && s.target.kind == kind
            && (HasRoom(v) && v.target.kind == kind ==> s == v)
            && (!HasRoom(v) || v.target.kind != kind ==> s.list == [] && s.log == Drawn(v, ok).log && !s.target.mapped)
  {
  }

  /** An accepted stretch of at least one clip is drawn before it returns if and only if its destination is
      YUV or its source is YUV with rows that C2D cannot use. */
  lemma DrawnAtOnceIff(v: State, c: Call, ok: nat -> bool)
    requires c.Stretch? && WellFormed(c) && !Refused(c.dst, c.src) && c.count > 0
    requires Accepted(RequestOf(c), BeforeOf(v, c, ok).target.mapped)
    ensures Apply(v, c, ok).list == [] <==>
            !c.dst.format.Rgb? || (!c.src.format.Rgb? && c.src.handle.width % 32 != 0)
  {
    var b, r := BeforeOf(v, c, ok), RequestOf(c);
    QueuedNotEmpty(Prepared(b, r), ItemOf(b, r), c.count, ok);
  }

  lemma {:induction false} QueuedNotEmpty(v: State, item: Object, clips: nat, ok: nat -> bool)
    requires clips > 0
    ensures Queued(v, item, clips, ok).list != []
    decreases clips
  {
    if clips > 1 {
      QueuedNotEmpty(QueueOne(v, item, ok), item, clips - 1, ok);
    }
  }
}
