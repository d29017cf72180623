/** Whole runs over flat sets that share one recycler: every operation ends, and every set is the
    mathematical set its operations make. */
module FlatRuns {
  import opened FlatTable
  import opened FlatSet
  import opened Powers

  /** With fewer ids than this a set never grows past the largest exact size. */
  const CAPACITY: nat := 0x180_0000

  // ---- operations on mathematical sets -------------------------------------------------------------------

  datatype Op =
    | OpAdd(k: nat, id: nat)
    | OpHas(k: nat, id: nat)
    | OpLen(k: nat)
    | OpPresize(k: nat, n: nat)
    | OpReset(k: nat)
    | OpRelease(k: nat)

  datatype Answer = Told(yes: bool) | Counted(n: nat) | Done

  /** The operation is on one of the sets, an addition finds room and a presize stays below the
      shared size class -- all a caller can check from what was added. */
  predicate Fits(op: Op, ms: seq<set<nat>>) {
    && op.k < |ms|
    && (op.OpAdd? ==> op.id < 0xFFFF_FFFF && |ms[op.k]| < CAPACITY)
    && (op.OpPresize? ==> PowerOfTwoBelow(op.n))
  }

  predicate PowerOfTwoBelow(n: nat) {
    n < LARGEST && exists k: nat :: k < CLASSES && n == Pow2(k)
  }

  function Applied(op: Op, ms: seq<set<nat>>): (r: seq<set<nat>>)
    requires op.k < |ms|
    ensures |r| == |ms|
  {
    match op
    case OpAdd(k, id) => ms[k := ms[k] + {id}]
    case OpReset(k) => ms[k := {}]
    case OpRelease(k) => ms[k := {}]
    case _ => ms
  }

  function Answered(op: Op, ms: seq<set<nat>>): Answer
    requires op.k < |ms|
  {
    match op
    case OpAdd(k, id) => Told(id !in ms[k])
    case OpHas(k, id) => Told(id in ms[k])
    case OpLen(k) => Counted(|ms[k]|)
    case _ => Done
  }

  /** Every operation fits where it comes. */
  predicate AllFit(ops: seq<Op>, ms: seq<set<nat>>) {
    ops == [] || (Fits(ops[0], ms) && AllFit(ops[1..], Applied(ops[0], ms)))
  }

  function Outcome(ops: seq<Op>, ms: seq<set<nat>>): (r: seq<set<nat>>)
    requires AllFit(ops, ms)
    ensures |r| == |ms|
  {
    if ops == [] then ms else Outcome(ops[1..], Applied(ops[0], ms))
  }

  function Answers(ops: seq<Op>, ms: seq<set<nat>>): seq<Answer>
    requires AllFit(ops, ms)
  {
    if ops == [] then [] else [Answered(ops[0], ms)] + Answers(ops[1..], Applied(ops[0], ms))
  }

  // ---- the pool --------------------------------------------------------------------------------------------

  ghost function Elems(sets: seq<U32Set>): set<U32Set> {
    set k | 0 <= k < |sets| :: sets[k]
  }

  ghost function SlotsOf(sets: seq<U32Set>): set<array<nat>>
    reads sets
  {
    set k | 0 <= k < |sets| && sets[k].slots != null :: sets[k].slots
  }

  /** Every array the sets or the recycler hold. */
  ghost function Footprint(sets: seq<U32Set>, rec: Recycle?): set<array<nat>>
    reads sets, rec
  {
    SlotsOf(sets) + if rec == null then {} else Filed(rec.byLog)
  }

  ghost predicate Distinct(sets: seq<U32Set>) {
    forall j, k :: 0 <= j < k < |sets| ==> sets[j] != sets[k]
  }

  /** The sets share the recycler soundly, all are healthy, and their members are `ms`. */
  ghost predicate Pool(sets: seq<U32Set>, rec: Recycle?, ms: seq<set<nat>>)
    reads sets, rec, SlotsOf(sets)
  {
    && |ms| == |sets| && Distinct(sets) && Sharing(Elems(sets), rec)
    && (forall k :: 0 <= k < |sets| ==> Holds(sets[k], ms[k]))
  }

  ghost predicate Holds(s: U32Set, m: set<nat>)
    reads s, s.slots
  {
    s.Valid() && s.Healthy() && s.Members() == m
  }

  /** One set changed, the others as before. */
  ghost predicate Changed(sets: seq<U32Set>, rec: Recycle?, ms: seq<set<nat>>, k: nat, m: set<nat>)
    requires k < |sets|
    reads sets, rec, SlotsOf(sets)
  {
    && |ms| == |sets| && Distinct(sets) && Sharing(Elems(sets), rec) && Holds(sets[k], m)
    && (forall j :: 0 <= j < |sets| && j != k ==> Holds(sets[j], ms[j]))
  }

  lemma PoolAfter(sets: seq<U32Set>, rec: Recycle?, op: Op, ms: seq<set<nat>>)
    requires op.k < |sets| == |ms| && Changed(sets, rec, ms, op.k, Applied(op, ms)[op.k])
    ensures Pool(sets, rec, Applied(op, ms))
  {
  }

  lemma InPool(sets: seq<U32Set>, rec: Recycle?, ms: seq<set<nat>>, k: nat)
    requires Pool(sets, rec, ms) && k < |sets|
    ensures sets[k] in Elems(sets) && sets[k].rec == rec && sets[k].Valid() && sets[k].Apart() && sets[k].Healthy()
    ensures sets[k].Members() == ms[k] && sets[k].count == |ms[k]|
    ensures sets[k].Arrays() <= Footprint(sets, rec)
  {
    assert sets[k] in Elems(sets);
    if sets[k].slots != null { CountsAgree(sets[k].slots[..sets[k].size]); }
  }

  lemma OthersKept(sets: seq<U32Set>, k: nat, j: nat)
    requires Distinct(sets) && k < |sets| && j < |sets| && j != k
    ensures sets[j] in Elems(sets) && sets[j] != sets[k]
  {
  }

  /** Below capacity a growth that is due is one to at most the largest exact size. */
  lemma BelowCapacity(s: U32Set)
    requires s.Valid() && s.Apart() && s.count < CAPACITY
    ensures Roomy(s)
  {
    if s.GrowthDue() { s.SmallTablesGrow(); }
  }

  // ---- one operation -----------------------------------------------------------------------------------------

  /** What is new among all the arrays is new among the changed set's. */
  lemma FootprintWithin(sets: seq<U32Set>, rec: Recycle?, k: nat, was: set<array<nat>>)
    requires k < |sets| && sets[k].rec == rec
    requires forall j :: 0 <= j < |sets| && j != k && sets[j].slots != null ==> sets[j].slots in was
    ensures Footprint(sets, rec) <= was + sets[k].Arrays()
  {
  }

  method AddAt(sets: seq<U32Set>, rec: Recycle?, op: Op, ghost ms: seq<set<nat>>) returns (ended: bool, added: bool)
    requires Pool(sets, rec, ms) && Fits(op, ms) && op.OpAdd?
    modifies sets[op.k], rec, sets[op.k].Arrays()
    ensures ended && (added <==> op.id !in ms[op.k])
    ensures Changed(sets, rec, ms, op.k, Applied(op, ms)[op.k])
    ensures forall a :: a in Footprint(sets, rec) ==> a in old(Footprint(sets, rec)) || fresh(a)
  {
    ghost var was := Footprint(sets, rec);
    InPool(sets, rec, ms, op.k);
    BelowCapacity(sets[op.k]);
    ended, added := AddShared(Elems(sets), sets[op.k], op.id);
    forall j | 0 <= j < |sets| && j != op.k ensures Holds(sets[j], ms[j]) && (sets[j].slots != null ==> sets[j].slots in was) {
      OthersKept(sets, op.k, j);
    }
    FootprintWithin(sets, rec, op.k, was);
  }

  method PresizeAt(sets: seq<U32Set>, rec: Recycle?, op: Op, ghost ms: seq<set<nat>>)
    requires Pool(sets, rec, ms) && Fits(op, ms) && op.OpPresize?
    modifies sets[op.k], rec, sets[op.k].Arrays()
    ensures Changed(sets, rec, ms, op.k, Applied(op, ms)[op.k])
    ensures forall a :: a in Footprint(sets, rec) ==> a in old(Footprint(sets, rec)) || fresh(a)
  {
    ghost var was := Footprint(sets, rec);
    InPool(sets, rec, ms, op.k);
    PresizeShared(Elems(sets), sets[op.k], op.n);
    forall j | 0 <= j < |sets| && j != op.k ensures Holds(sets[j], ms[j]) && (sets[j].slots != null ==> sets[j].slots in was) {
      OthersKept(sets, op.k, j);
    }
    FootprintWithin(sets, rec, op.k, was);
  }

  method ResetAt(sets: seq<U32Set>, rec: Recycle?, op: Op, ghost ms: seq<set<nat>>)
    requires Pool(sets, rec, ms) && Fits(op, ms) && op.OpReset?
    modifies sets[op.k], rec, sets[op.k].Arrays()
    ensures Changed(sets, rec, ms, op.k, {})
    ensures forall a :: a in Footprint(sets, rec) ==> a in old(Footprint(sets, rec)) || fresh(a)
  {
    ghost var was := Footprint(sets, rec);
    InPool(sets, rec, ms, op.k);
    ResetShared(Elems(sets), sets[op.k]);
    forall j | 0 <= j < |sets| && j != op.k ensures Holds(sets[j], ms[j]) && (sets[j].slots != null ==> sets[j].slots in was) {
      OthersKept(sets, op.k, j);
    }
    FootprintWithin(sets, rec, op.k, was);
  }

  method ReleaseAt(sets: seq<U32Set>, rec: Recycle?, op: Op, ghost ms: seq<set<nat>>)
    requires Pool(sets, rec, ms) && Fits(op, ms) && op.OpRelease?
    modifies sets[op.k], rec, sets[op.k].Arrays()
    ensures Changed(sets, rec, ms, op.k, {})
    ensures forall a :: a in Footprint(sets, rec) ==> a in old(Footprint(sets, rec)) || fresh(a)
  {
    ghost var was := Footprint(sets, rec);
    InPool(sets, rec, ms, op.k);
    ReleaseShared(Elems(sets), sets[op.k]);
    forall j | 0 <= j < |sets| && j != op.k ensures Holds(sets[j], ms[j]) && (sets[j].slots != null ==> sets[j].slots in was) {
      OthersKept(sets, op.k, j);
    }
    FootprintWithin(sets, rec, op.k, was);
  }

  method HasAt(sets: seq<U32Set>, rec: Recycle?, op: Op, ghost ms: seq<set<nat>>) returns (ended: bool, found: bool)
    requires Pool(sets, rec, ms) && Fits(op, ms) && op.OpHas?
    ensures ended && (found <==> op.id in ms[op.k])
  {
    InPool(sets, rec, ms, op.k);
    ended, found := sets[op.k].Has(op.id);
  }

  method LenAt(sets: seq<U32Set>, rec: Recycle?, op: Op, ghost ms: seq<set<nat>>) returns (n: nat)
    requires Pool(sets, rec, ms) && Fits(op, ms) && op.OpLen?
    ensures n == |ms[op.k]|
  {
    InPool(sets, rec, ms, op.k);
    n := sets[op.k].Len();
  }

  // ---- runs ----------------------------------------------------------------------------------------------------

  /** One operation: it ends, answers as the mathematical sets do, and leaves the pool sound. */
  method Perform(sets: seq<U32Set>, rec: Recycle?, op: Op, ghost ms: seq<set<nat>>) returns (ended: bool, answer: Answer)
    requires Pool(sets, rec, ms) && Fits(op, ms)
    modifies sets, rec, Footprint(sets, rec)
    ensures ended && answer == Answered(op, ms)
    ensures Pool(sets, rec, Applied(op, ms))
    ensures forall a :: a in Footprint(sets, rec) ==> a in old(Footprint(sets, rec)) || fresh(a)
  {
    if op.OpHas? || op.OpLen? {
      ended, answer := Ask(sets, rec, op, ms);
    } else {
      ended, answer := Change(sets, rec, op, ms);
    }
  }

  method Ask(sets: seq<U32Set>, rec: Recycle?, op: Op, ghost ms: seq<set<nat>>) returns (ended: bool, answer: Answer)
    requires Pool(sets, rec, ms) && Fits(op, ms) && (op.OpHas? || op.OpLen?)
    ensures ended && answer == Answered(op, ms)
  {
    if op.OpHas? {
      var found;
      ended, found := HasAt(sets, rec, op, ms);
      answer := Told(found);
    } else {
      var n := LenAt(sets, rec, op, ms);
      ended, answer := true, Counted(n);
    }
  }

  method Change(sets: seq<U32Set>, rec: Recycle?, op: Op, ghost ms: seq<set<nat>>) returns (ended: bool, answer: Answer)
    requires Pool(sets, rec, ms) && Fits(op, ms) && !op.OpHas? && !op.OpLen?
    modifies sets, rec, Footprint(sets, rec)
    ensures ended && answer == Answered(op, ms)
    ensures Pool(sets, rec, Applied(op, ms))
    ensures forall a :: a in Footprint(sets, rec) ==> a in old(Footprint(sets, rec)) || fresh(a)
  {
    InPool(sets, rec, ms, op.k);
    ended, answer := true, Done;
    if op.OpAdd? {
      var added;
      ended, added := AddAt(sets, rec, op, ms);
      answer := Told(added);
    } else if op.OpPresize? {
      PresizeAt(sets, rec, op, ms);
    } else if op.OpReset? {
      ResetAt(sets, rec, op, ms);
    } else {
      ReleaseAt(sets, rec, op, ms);
    }
    PoolAfter(sets, rec, op, ms);
  }

  /** Any operations on any sets sharing a recycler, so long as each addition finds its set below
      capacity and each presize stays below the shared size class: every probe ends, every answer and
      every set is that of the mathematical sets. */
  method RunOps(sets: seq<U32Set>, rec: Recycle?, ops: seq<Op>, ghost ms: seq<set<nat>>) returns (ended: bool, answers: seq<Answer>)
    requires Pool(sets, rec, ms) && AllFit(ops, ms)
    modifies sets, rec, Footprint(sets, rec)
    ensures ended && answers == Answers(ops, ms)
    ensures Pool(sets, rec, Outcome(ops, ms))
    ensures forall a :: a in Footprint(sets, rec) ==> a in old(Footprint(sets, rec)) || fresh(a)
    decreases |ops|
  {
    if ops == [] { return true, []; }
    var answer, rest;
    ended, answer := Perform(sets, rec, ops[0], ms);
    if !ended { return false, []; }
    ended, rest := RunOps(sets, rec, ops[1..], Applied(ops[0], ms));
    answers := [answer] + rest;
  }

  /** New sets on a new recycler. */
  method NewSets(count: nat) returns (sets: seq<U32Set>, rec: Recycle)
    ensures fresh(rec) && (forall k :: 0 <= k < |sets| ==> fresh(sets[k])) && Filed(rec.byLog) == {} && SlotsOf(sets) == {}
    ensures |sets| == count && Pool(sets, rec, seq(count, _ => {}))
  {
    rec := new Recycle();
    sets := [];
    for k := 0 to count
      invariant |sets| == k && fresh(rec) && rec.Valid() && Filed(rec.byLog) == {} && fresh(Elems(sets)) && Distinct(sets)
      invariant forall j :: 0 <= j < k ==> sets[j].rec == rec && sets[j].slots == null && sets[j].Valid()
    {
      var s := new U32Set(rec);
      assert forall j :: 0 <= j < k ==> sets[j] in Elems(sets);
      sets := sets + [s];
    }
  }

  /** From nothing: the answers of any fitting run are those of sets that start empty. */
  method RunFromScratch(count: nat, ops: seq<Op>) returns (ended: bool, answers: seq<Answer>)
    requires AllFit(ops, seq(count, _ => {}))
    ensures ended && answers == Answers(ops, seq(count, _ => {}))
  {
    var sets, rec := NewSets(count);
    ended, answers := RunOps(sets, rec, ops, seq(count, _ => {}));
  }
}
