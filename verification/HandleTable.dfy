/** The reference-counted handle table of the buffer manager together with a ledger of the ION
    resources it acquires, as a transition system over the calls that change it.

    Every successful allocation or import creates one new resource, numbered in order. The error exits
    of the source that return early keep what had been acquired or not yet freed: those resources stay
    live and are recorded as leaked.
 */
module HandleTable {

  /** A table entry: its reference count and its main and metadata resources. */
  datatype Entry = Entry(refs: int, main: nat, meta: nat)

  datatype Table<!H(==)> = Table(entries: map<H, Entry>, live: set<nat>, leaked: set<nat>,
                                freed: seq<nat>, next: nat)

  /** A call and the answers of the kernel: whether the main and the metadata buffer were obtained,
      whether the handle is well formed, whether unmapping the main buffer succeeded. */
  datatype Op<!H(==)> =
    | Allocate(handle: H, mainOk: bool, metaOk: bool)
    | Retain(handle: H, valid: bool, mainOk: bool, metaOk: bool)
    | Release(handle: H, valid: bool, unmapOk: bool)

  function Empty<H(==)>(): Table<H> {
    Table(map[], {}, {}, [], 0)
  }

  /** A main buffer was obtained and its metadata buffer was not. */
  function LeakMain<H(==)>(t: Table<H>): Table<H> {
    t.(live := t.live + {t.next}, leaked := t.leaked + {t.next}, next := t.next + 1)
  }

  /** Obtain main and metadata buffers and register the handle. A failure to obtain the metadata
      buffer leaks the main one; registering a handle that is already present changes no entry. */
  function Acquire<H(==)>(t: Table<H>, h: H, mainOk: bool, metaOk: bool): Table<H> {
    if !mainOk then t
    else if !metaOk then LeakMain(t)
    else
      var both := {t.next, t.next + 1};
      if h in t.entries then t.(live := t.live + both, leaked := t.leaked + both, next := t.next + 2)
      else t.(entries := t.entries[h := Entry(1, t.next, t.next + 1)], live := t.live + both,
              next := t.next + 2)
  }

  /** Free an entry that has left the table: an invalid handle frees nothing, a failed unmap of the main
      buffer still frees that buffer but skips the metadata. */
  function Free<H(==)>(t: Table<H>, e: Entry, valid: bool, unmapOk: bool): Table<H> {
    if !valid then t.(leaked := t.leaked + {e.main, e.meta})
    else if !unmapOk then
      t.(live := t.live - {e.main}, freed := t.freed + [e.main], leaked := t.leaked + {e.meta})
    else t.(live := t.live - {e.main, e.meta}, freed := t.freed + [e.main, e.meta])
  }

  function Step<H(==)>(t: Table<H>, op: Op<H>): Table<H> {
    match op
    case Allocate(h, mainOk, metaOk) => Acquire(t, h, mainOk, metaOk)
    case Retain(h, valid, mainOk, metaOk) =>
      if h in t.entries then t.(entries := t.entries[h := t.entries[h].(refs := t.entries[h].refs + 1)])
      else if !valid then t
      else Acquire(t, h, mainOk, metaOk)
    case Release(h, valid, unmapOk) =>
      if h !in t.entries then t
      else if t.entries[h].refs != 1 then
        t.(entries := t.entries[h := t.entries[h].(refs := t.entries[h].refs - 1)])
      else Free(t.(entries := t.entries - {h}), t.entries[h], valid, unmapOk)
  }

  /** The table after a run, from an empty one. */
  function Run<H(==)>(ops: seq<Op<H>>): Table<H> {
    if ops == [] then Empty() else Step(Run(ops[..|ops| - 1]), ops[|ops| - 1])
  }

  // ---------------------------------------------------------------------------------------------
  // Conservation
  // ---------------------------------------------------------------------------------------------

  /** The resources owned by table entries. */
  ghost function Owned<H>(entries: map<H, Entry>): set<nat> {
    (set h | h in entries :: entries[h].main) + (set h | h in entries :: entries[h].meta)
  }

  /** Counts are positive and no resource has two owners. */
  ghost predicate Separate<H>(entries: map<H, Entry>) {
    && (forall h :: h in entries ==> entries[h].refs >= 1 && entries[h].main != entries[h].meta)
    && (forall h, h' :: h in entries && h' in entries && h != h' ==>
          {entries[h].main, entries[h].meta} !! {entries[h'].main, entries[h'].meta})
  }

  /** Live resources are exactly those of the entries and the leaked ones; a resource that was ever
      created is live or freed, and freed at most once. */
  ghost predicate Ledger<H>(t: Table<H>) {
    && t.live == Owned(t.entries) + t.leaked && Owned(t.entries) !! t.leaked
    && (forall r :: r in t.live ==> r < t.next)
    && (forall r :: r in t.freed ==> r < t.next && r !in t.live)
    && (forall r: nat :: r < t.next ==> r in t.live || r in t.freed)
    && (forall i, j :: 0 <= i < j < |t.freed| ==> t.freed[i] != t.freed[j])
  }

  ghost predicate Inv<H>(t: Table<H>) {
    Separate(t.entries) && Ledger(t)
  }

  lemma OwnedAfterInsert<H>(entries: map<H, Entry>, h: H, e: Entry)
    requires h !in entries
    ensures Owned(entries[h := e]) == Owned(entries) + {e.main, e.meta}
  {
    var after := entries[h := e];
    forall r | r in Owned(entries) + {e.main, e.meta}
      ensures r in Owned(after)
    {
      if r in Owned(entries) {
        var g :| g in entries && (entries[g].main == r || entries[g].meta == r);
        assert g in after && after[g] == entries[g];
      } else {
        assert h in after && after[h] == e;
      }
    }
  }

  lemma OwnedAfterRecount<H>(entries: map<H, Entry>, h: H, refs: int)
    requires h in entries
    ensures Owned(entries[h := entries[h].(refs := refs)]) == Owned(entries)
  {
    var after := entries[h := entries[h].(refs := refs)];
    forall g | g in entries
      ensures g in after && after[g].main == entries[g].main && after[g].meta == entries[g].meta
    {
    }
    assert after.Keys == entries.Keys;
  }

  lemma OwnedAfterRemove<H>(entries: map<H, Entry>, h: H)
    requires Separate(entries) && h in entries
    ensures Owned(entries - {h}) == Owned(entries) - {entries[h].main, entries[h].meta}
    ensures entries[h].main in Owned(entries) && entries[h].meta in Owned(entries)
    ensures Separate(entries - {h})
  {
    var after := entries - {h};
    assert after[h := entries[h]] == entries;
    OwnedAfterInsert(after, h, entries[h]);
    forall g | g in after
      ensures after[g].main !in {entries[h].main, entries[h].meta}
      ensures after[g].meta !in {entries[h].main, entries[h].meta}
    {
      assert g in entries && g != h && after[g] == entries[g];
    }
  }

  lemma AcquireKeepsInv<H>(t: Table<H>, h: H, mainOk: bool, metaOk: bool)
    requires Inv(t)
    ensures Inv(Acquire(t, h, mainOk, metaOk))
  {
    if mainOk && metaOk {
      if h in t.entries {
        LeakBothKeepsLedger(t);
      } else {
        RegisterKeepsInv(t, h);
      }
    } else if mainOk {
      LeakMainKeepsInv(t);
    }
  }

  lemma LeakBothKeepsLedger<H>(t: Table<H>)
    requires Ledger(t)
    ensures Ledger(t.(live := t.live + {t.next, t.next + 1}, leaked := t.leaked + {t.next, t.next + 1},
                      next := t.next + 2))
  {
  }

  lemma RegisterKeepsInv<H>(t: Table<H>, h: H)
    requires Inv(t) && h !in t.entries
    ensures Inv(t.(entries := t.entries[h := Entry(1, t.next, t.next + 1)],
                   live := t.live + {t.next, t.next + 1}, next := t.next + 2))
  {
    var e := Entry(1, t.next, t.next + 1);
    OwnedAfterInsert(t.entries, h, e);
    InsertKeepsSeparate(t.entries, h, e);
  }

  lemma InsertKeepsSeparate<H>(entries: map<H, Entry>, h: H, e: Entry)
    requires Separate(entries) && e.refs >= 1 && e.main != e.meta
    requires e.main !in Owned(entries) && e.meta !in Owned(entries)
    ensures Separate(entries[h := e])
  {
    forall g | g in entries
      ensures entries[g].main in Owned(entries) && entries[g].meta in Owned(entries)
    {
    }
  }

  lemma FreeKeepsInv<H>(t: Table<H>, h: H, valid: bool, unmapOk: bool)
    requires Inv(t) && h in t.entries
    ensures Inv(Free(t.(entries := t.entries - {h}), t.entries[h], valid, unmapOk))
  {
    var rest, e := t.entries - {h}, t.entries[h];
    OwnedAfterRemove(t.entries, h);
    if !valid {
      KeptKeepsLedger(t, rest, e);
    } else {
      FreedKeepsLedger(t, rest, e, unmapOk);
    }
  }

  /** The resources of an entry that leaves the table are leaked. */
  lemma KeptKeepsLedger<H>(t: Table<H>, rest: map<H, Entry>, e: Entry)
    requires Ledger(t) && Owned(rest) == Owned(t.entries) - {e.main, e.meta}
    requires e.main in Owned(t.entries) && e.meta in Owned(t.entries)
    ensures Ledger(t.(entries := rest, leaked := t.leaked + {e.main, e.meta}))
  {
  }

  /** They are freed, or the main one is and the other is leaked. */
  lemma FreedKeepsLedger<H>(t: Table<H>, rest: map<H, Entry>, e: Entry, both: bool)
    requires Ledger(t) && Owned(rest) == Owned(t.entries) - {e.main, e.meta} && e.main != e.meta
    requires e.main in Owned(t.entries) && e.meta in Owned(t.entries)
    ensures both ==> Ledger(t.(entries := rest, live := t.live - {e.main, e.meta}, freed := t.freed + [e.main, e.meta]))
    ensures !both ==> Ledger(t.(entries := rest, live := t.live - {e.main}, freed := t.freed + [e.main],
                                leaked := t.leaked + {e.meta}))
  {
    var freed := if both then t.freed + [e.main, e.meta] else t.freed + [e.main];
    assert e.main !in t.freed && e.meta !in t.freed;
    forall r | r in freed
      ensures r in t.freed || r == e.main || (both && r == e.meta)
    {
    }
  }

  lemma StepKeepsInv<H>(t: Table<H>, op: Op<H>)
    requires Inv(t)
    ensures Inv(Step(t, op))
  {
    var h := op.handle;
    match op
    case Allocate(_, mainOk, metaOk) => AcquireKeepsInv(t, h, mainOk, metaOk);
    case Retain(_, _, mainOk, metaOk) =>
      if h in t.entries {
        RecountKeepsInv(t, h, t.entries[h].refs + 1);
      } else {
        AcquireKeepsInv(t, h, mainOk, metaOk);
      }
    case Release(_, valid, unmapOk) =>
      if h in t.entries {
        if t.entries[h].refs != 1 {
          RecountKeepsInv(t, h, t.entries[h].refs - 1);
        } else {
          FreeKeepsInv(t, h, valid, unmapOk);
        }
      }
  }

  lemma RecountKeepsInv<H>(t: Table<H>, h: H, refs: int)
    requires Inv(t) && h in t.entries && refs >= 1
    ensures Inv(t.(entries := t.entries[h := t.entries[h].(refs := refs)]))
  {
    OwnedAfterRecount(t.entries, h, refs);
  }

  /** Conservation over every run, whatever the kernel answers. */
  lemma {:induction false} RunKeepsInv<H>(ops: seq<Op<H>>)
    ensures Inv(Run(ops))
  {
    if ops != [] {
      RunKeepsInv(ops[..|ops| - 1]);
      StepKeepsInv(Run(ops[..|ops| - 1]), ops[|ops| - 1]);
    }
  }

  // ---------------------------------------------------------------------------------------------
  // Reference counts, frees and leaks in terms of the calls made
  // ---------------------------------------------------------------------------------------------

  function Retains<H(==)>(ops: seq<Op<H>>, h: H): nat {
    if ops == [] then 0
    else
      var last := ops[|ops| - 1];
      Retains(ops[..|ops| - 1], h) + if last.Retain? && last.handle == h then 1 else 0
  }

  function Releases<H(==)>(ops: seq<Op<H>>, h: H): nat {
    if ops == [] then 0
    else
      var last := ops[|ops| - 1];
      Releases(ops[..|ops| - 1], h) + if last.Release? && last.handle == h then 1 else 0
  }

  /** The call obtained a main and a metadata buffer for the handle, or would have for an unknown one. */
  predicate Obtains<H(==)>(op: Op<H>, h: H) {
    op.handle == h && (op.Allocate? || (op.Retain? && op.valid)) && op.mainOk && op.metaOk
  }

  /** At no point of these calls were there more releases than retains. */
  predicate NeverShort<H(==)>(ops: seq<Op<H>>, h: H) {
    Releases(ops, h) <= Retains(ops, h) && (ops == [] || NeverShort(ops[..|ops| - 1], h))
  }

  /** Call `k` obtained the buffers, and at no point since were there more releases than retains. */
  predicate KeptSince<H(==)>(ops: seq<Op<H>>, k: nat, h: H) {
    k < |ops| && Obtains(ops[k], h) && NeverShort(ops[k + 1..], h)
  }

  lemma KeptSinceNext<H>(ops: seq<Op<H>>, op: Op<H>, k: nat, h: H)
    ensures k < |ops| ==>
              (KeptSince(ops + [op], k, h) <==>
               && KeptSince(ops, k, h)
               && Releases((ops + [op])[k + 1..], h) <= Retains((ops + [op])[k + 1..], h))
    ensures KeptSince(ops + [op], |ops|, h) <==> Obtains(op, h)
  {
    var next := ops + [op];
    if k < |ops| {
      var since := next[k + 1..];
      assert since[..|since| - 1] == ops[k + 1..];
    }
    assert next[|ops| + 1..] == [];
  }

  lemma {:induction false} NeverShortBefore<H>(ops: seq<Op<H>>, h: H, n: nat)
    requires NeverShort(ops, h) && n <= |ops|
    ensures NeverShort(ops[..n], h)
  {
    if n < |ops| {
      NeverShortBefore(ops[..|ops| - 1], h, n);
      assert ops[..|ops| - 1][..n] == ops[..n];
    } else {
      assert ops[..n] == ops;
    }
  }

  lemma BalanceNext<H>(ops: seq<Op<H>>, op: Op<H>, k: nat, h: H)
    requires k < |ops|
    ensures Retains((ops + [op])[k + 1..], h)
            == Retains(ops[k + 1..], h) + if op.Retain? && op.handle == h then 1 else 0
    ensures Releases((ops + [op])[k + 1..], h)
            == Releases(ops[k + 1..], h) + if op.Release? && op.handle == h then 1 else 0
  {
    var since := (ops + [op])[k + 1..];
    assert since == ops[k + 1..] + [op] && since[..|since| - 1] == ops[k + 1..];
  }

  /** A handle that was kept is in the table, with a count of at least the balance since. */
  lemma {:induction false} KeptIsPresent<H>(ops: seq<Op<H>>, k: nat, h: H)
    requires KeptSince(ops, k, h)
    ensures h in Run(ops).entries
    ensures Run(ops).entries[h].refs >= 1 + Retains(ops[k + 1..], h) - Releases(ops[k + 1..], h)
  {
    var front, op := ops[..|ops| - 1], ops[|ops| - 1];
    assert ops == front + [op];
    RunKeepsInv(front);
    KeptSinceNext(front, op, k, h);
    if k < |front| {
      KeptIsPresent(front, k, h);
      BalanceNext(front, op, k, h);
    } else {
      assert ops[k + 1..] == [];
    }
  }

  /** The count of an entry is one plus the retains minus the releases since the call, number `k`, that
      registered it: the first one that the handle has been kept since. */
  lemma {:induction false} RefCountIsBalance<H>(ops: seq<Op<H>>, h: H) returns (k: nat)
    requires h in Run(ops).entries
    ensures KeptSince(ops, k, h) && h !in Run(ops[..k]).entries
    ensures Run(ops).entries[h]
            == Entry(1 + Retains(ops[k + 1..], h) - Releases(ops[k + 1..], h),
                     Run(ops[..k]).next, Run(ops[..k]).next + 1)
    ensures forall j: nat :: j < k ==> !KeptSince(ops, j, h)
  {
    k := Registration(ops, h);
    forall j: nat | j < k
      ensures !KeptSince(ops, j, h)
    {
      if KeptSince(ops, j, h) {
        NeverShortBefore(ops[j + 1..], h, k - j - 1);
        assert ops[j + 1..][..k - j - 1] == ops[..k][j + 1..];
        KeptIsPresent(ops[..k], j, h);
      }
    }
  }

  lemma {:induction false} Registration<H>(ops: seq<Op<H>>, h: H) returns (k: nat)
    requires h in Run(ops).entries
    ensures KeptSince(ops, k, h) && h !in Run(ops[..k]).entries
    ensures Run(ops).entries[h]
            == Entry(1 + Retains(ops[k + 1..], h) - Releases(ops[k + 1..], h),
                     Run(ops[..k]).next, Run(ops[..k]).next + 1)
  {
    var n := |ops| - 1;
    var front, op := ops[..n], ops[n];
    assert ops == front + [op];
    RunKeepsInv(ops);
    if h in Run(front).entries {
      k := Registration(front, h);
      assert ops[..k] == front[..k];
      BalanceNext(front, op, k, h);
      RefCountStep(Run(front), op, h);
      KeptSinceNext(front, op, k, h);
    } else {
      k := n;
      KeptSinceNext(front, op, k, h);
      assert ops[k + 1..] == [];
    }
  }

  /** A handle is in the table if and only if some call obtained its buffers and it was not released more
      often than retained since, told from the calls alone. */
  lemma PresentIff<H>(ops: seq<Op<H>>, h: H)
    ensures h in Run(ops).entries <==> exists k: nat :: KeptSince(ops, k, h)
  {
    if h in Run(ops).entries {
      var k := RefCountIsBalance(ops, h);
    }
    if k: nat :| KeptSince(ops, k, h) {
      KeptIsPresent(ops, k, h);
    }
  }

  lemma RefCountStep<H>(t: Table<H>, op: Op<H>, h: H)
    requires h in t.entries && h in Step(t, op).entries
    ensures Step(t, op).entries[h].refs == t.entries[h].refs
              + (if op.Retain? && op.handle == h then 1 else 0)
              - (if op.Release? && op.handle == h then 1 else 0)
    ensures Step(t, op).entries[h].main == t.entries[h].main && Step(t, op).entries[h].meta == t.entries[h].meta
  {
  }

  /** An entry leaves the table exactly when a release meets a count of one; then both its resources
      are freed, once, unless the handle is malformed or its main buffer cannot be unmapped. */
  lemma LastReleaseFrees<H>(t: Table<H>, op: Op<H>, h: H)
    requires Inv(t) && h in t.entries
    ensures h !in Step(t, op).entries <==> op.Release? && op.handle == h && t.entries[h].refs == 1
    ensures h !in Step(t, op).entries && op.valid && op.unmapOk ==>
              && Step(t, op).freed == t.freed + [t.entries[h].main, t.entries[h].meta]
              && Step(t, op).live == t.live - {t.entries[h].main, t.entries[h].meta}
    ensures h !in Step(t, op).entries && op.valid && !op.unmapOk ==>
              && Step(t, op).freed == t.freed + [t.entries[h].main] && Step(t, op).live == t.live - {t.entries[h].main}
    ensures h !in Step(t, op).entries && !op.valid ==> Step(t, op).freed == t.freed && Step(t, op).live == t.live
    ensures h in Step(t, op).entries ==>
              && Step(t, op).entries[h].main == t.entries[h].main
              && Step(t, op).entries[h].meta == t.entries[h].meta
              && t.entries[h].main !in Step(t, op).freed && t.entries[h].meta !in Step(t, op).freed
  {
    StepKeepsInv(t, op);
    var t' := Step(t, op);
    if h in t'.entries {
      assert t'.entries[h].main in Owned(t'.entries) && t'.entries[h].meta in Owned(t'.entries);
    }
  }

  /** The calls that leak, told from the state before the call and the kernel's answers. */
  predicate Leaks<H(==)>(t: Table<H>, op: Op<H>) {
    match op
    case Allocate(h, mainOk, metaOk) => mainOk && (!metaOk || h in t.entries)
    case Retain(h, valid, mainOk, metaOk) => h !in t.entries && valid && mainOk && !metaOk
    case Release(h, valid, unmapOk) =>
      h in t.entries && t.entries[h].refs == 1 && (!valid || !unmapOk)
  }

  /** The resources that a leaking call leaves without an owner: a main buffer whose metadata could not be
      had, both buffers of a handle that was known, or what an early exit did not free. */
  function LeakedBy<H(==)>(t: Table<H>, op: Op<H>): set<nat>
    requires Leaks(t, op)
  {
    if op.Release? then
      if op.valid then {t.entries[op.handle].meta} else {t.entries[op.handle].main, t.entries[op.handle].meta}
    else if op.metaOk then {t.next, t.next + 1} else {t.next}
  }

  lemma LeaksExactly<H>(t: Table<H>, op: Op<H>)
    requires Leaks(t, op)
    ensures Step(t, op).leaked == t.leaked + LeakedBy(t, op)
    ensures !op.Release? ==> Step(t, op).live == t.live + LeakedBy(t, op) && Step(t, op).entries == t.entries
  {
  }

  lemma StepLeaksIff<H>(t: Table<H>, op: Op<H>)
    requires Inv(t)
    ensures t.leaked <= Step(t, op).leaked
    ensures Step(t, op).leaked == t.leaked <==> !Leaks(t, op)
  {
    StepKeepsInv(t, op);
    if Leaks(t, op) {
      var r := if op.Release? then t.entries[op.handle].meta else t.next;
      assert r in Step(t, op).leaked;
      if op.Release? {
        OwnedAfterRemove(t.entries, op.handle);
      }
      assert r !in t.leaked;
    }
  }

  /** No call of the run took an early exit. */
  predicate Clean<H(==)>(ops: seq<Op<H>>) {
    ops == [] ||
    var front := ops[..|ops| - 1];
    Clean(front) && !Leaks(Run(front), ops[|ops| - 1])
  }

  /** Live resources are exactly those of the table's entries if and only if no call of the run took an
      early exit. */
  lemma LiveIsOwnedIff<H>(ops: seq<Op<H>>)
    ensures Run(ops).live == Owned(Run(ops).entries) <==> Clean(ops)
  {
    RunKeepsInv(ops);
    LeakedEmptyIff(ops);
  }

  lemma {:induction false} LeakedEmptyIff<H>(ops: seq<Op<H>>)
    ensures Run(ops).leaked == {} <==> Clean(ops)
  {
    if ops != [] {
      var front := ops[..|ops| - 1];
      LeakedEmptyIff(front);
      RunKeepsInv(front);
      StepLeaksIff(Run(front), ops[|ops| - 1]);
    }
  }

  // ---------------------------------------------------------------------------------------------
  // A batch of allocations and its release
  // ---------------------------------------------------------------------------------------------

  function AllocateAll<H(==)>(t: Table<H>, hs: seq<H>): Table<H> {
    if hs == [] then t
    else Step(AllocateAll(t, hs[..|hs| - 1]), Allocate(hs[|hs| - 1], true, true))
  }

  function ReleaseAll<H(==)>(t: Table<H>, hs: seq<H>): Table<H> {
    if hs == [] then t
    else Step(ReleaseAll(t, hs[..|hs| - 1]), Release(hs[|hs| - 1], true, true))
  }

  lemma AllocateAllSnoc<H>(t: Table<H>, hs: seq<H>, h: H)
    ensures AllocateAll(t, hs + [h]) == Step(AllocateAll(t, hs), Allocate(h, true, true))
  {
    assert (hs + [h])[..|hs|] == hs;
  }

  lemma ReleaseAllSnoc<H>(t: Table<H>, hs: seq<H>, h: H)
    ensures ReleaseAll(t, hs + [h]) == Step(ReleaseAll(t, hs), Release(h, true, true))
  {
    assert (hs + [h])[..|hs|] == hs;
  }

  ghost predicate Distinct<H>(hs: seq<H>) {
    forall i, j :: 0 <= i < j < |hs| ==> hs[i] != hs[j]
  }

  lemma {:induction false} AllocateAllAdds<H>(t: Table<H>, hs: seq<H>)
    requires Distinct(hs) && forall h :: h in hs ==> h !in t.entries
    ensures AllocateAll(t, hs).leaked == t.leaked && AllocateAll(t, hs).freed == t.freed
    ensures AllocateAll(t, hs).next == t.next + 2 * |hs|
    ensures forall h :: h in AllocateAll(t, hs).entries <==> h in t.entries || h in hs
    ensures forall h :: h in t.entries ==> AllocateAll(t, hs).entries[h] == t.entries[h]
    ensures forall h :: h in hs ==> AllocateAll(t, hs).entries[h].refs == 1
  {
    if hs != [] {
      var n := |hs| - 1;
      AllocateAllAdds(t, hs[..n]);
      assert hs == hs[..n] + [hs[n]];
    }
  }

  lemma {:induction false} AllocateAllKeepsInv<H>(t: Table<H>, hs: seq<H>)
    requires Inv(t)
    ensures Inv(AllocateAll(t, hs))
  {
    if hs != [] {
      var n := |hs| - 1;
      AllocateAllKeepsInv(t, hs[..n]);
      StepKeepsInv(AllocateAll(t, hs[..n]), Allocate(hs[n], true, true));
    }
  }

  lemma {:induction false} ReleaseAllRemoves<H>(t: Table<H>, hs: seq<H>)
    requires Distinct(hs) && forall h :: h in hs ==> h in t.entries && t.entries[h].refs == 1
    ensures ReleaseAll(t, hs).leaked == t.leaked
    ensures |ReleaseAll(t, hs).freed| == |t.freed| + 2 * |hs|
    ensures forall h :: h in ReleaseAll(t, hs).entries <==> h in t.entries && h !in hs
    ensures forall h :: h in ReleaseAll(t, hs).entries ==> ReleaseAll(t, hs).entries[h] == t.entries[h]
  {
    if hs != [] {
      var n := |hs| - 1;
      ReleaseAllRemoves(t, hs[..n]);
      assert hs == hs[..n] + [hs[n]];
    }
  }

  lemma {:induction false} ReleaseAllKeepsInv<H>(t: Table<H>, hs: seq<H>)
    requires Inv(t)
    ensures Inv(ReleaseAll(t, hs))
  {
    if hs != [] {
      var n := |hs| - 1;
      ReleaseAllKeepsInv(t, hs[..n]);
      StepKeepsInv(ReleaseAll(t, hs[..n]), Release(hs[n], true, true));
    }
  }

  /** What a batch leaves behind when it allocates the handles `hs`, then possibly fails to obtain a
      metadata buffer, and finally releases each handle once. */
  function Batch<H(==)>(t: Table<H>, hs: seq<H>, leak: bool): Table<H> {
    ReleaseAll(if leak then LeakMain(AllocateAll(t, hs)) else AllocateAll(t, hs), hs)
  }

  /** Allocating any number of fresh handles and releasing each once leaves the entries as they were and
      has freed every resource created on the way, but for the main buffer of the failed attempt. */
  lemma BatchRestores<H>(t: Table<H>, hs: seq<H>, leak: bool)
    requires Inv(t) && Distinct(hs) && forall h :: h in hs ==> h !in t.entries
    ensures Inv(Batch(t, hs, leak)) && Batch(t, hs, leak).entries == t.entries
    ensures |Batch(t, hs, leak).freed| == |t.freed| + 2 * |hs|
    ensures Batch(t, hs, leak).leaked == t.leaked + if leak then {t.next + 2 * |hs|} else {}
    ensures Batch(t, hs, leak).live == t.live + if leak then {t.next + 2 * |hs|} else {}
  {
    var m := AllocateAll(t, hs);
    AllocateAllAdds(t, hs);
    AllocateAllKeepsInv(t, hs);
    var l := if leak then LeakMain(m) else m;
    assert Inv(l) by { LeakMainKeepsInv(m); }
    ReleaseAllRemoves(l, hs);
    ReleaseAllKeepsInv(l, hs);
    EntriesRestored(t.entries, l.entries, ReleaseAll(l, hs).entries, hs);
    SameOwners(t, ReleaseAll(l, hs));
  }

  lemma LeakMainKeepsInv<H>(t: Table<H>)
    requires Inv(t)
    ensures Inv(LeakMain(t))
  {
  }

  lemma EntriesRestored<H>(before: map<H, Entry>, mid: map<H, Entry>, after: map<H, Entry>, hs: seq<H>)
    requires forall h :: h in hs ==> h !in before
    requires forall h :: h in mid <==> h in before || h in hs
    requires forall h :: h in before ==> mid[h] == before[h]
    requires forall h :: h in after <==> h in mid && h !in hs
    requires forall h :: h in after ==> after[h] == mid[h]
    ensures after == before
  {
  }

  lemma SameOwners<H>(t: Table<H>, f: Table<H>)
    requires Ledger(t) && Ledger(f) && t.entries == f.entries
    ensures t.live - t.leaked == f.live - f.leaked
    ensures t.live == (t.live - t.leaked) + t.leaked && f.live == (f.live - f.leaked) + f.leaked
  {
  }
}
