/**
 The price schedules of an offer: ten slots, cleaned in place, of which the one with the latest
 start time that has come is active.
 */
module OfferVectors {
  import opened Outcomes

  datatype OfferVector = OfferVector(
    startTime: u64, baseTime: u64, basePrice: u64, apr: u64, priceFixDuration: u64)

  /** The default vector; a start time of zero marks an empty slot. */
  const EMPTY := OfferVector(0, 0, 0, 0, 0)

  const MAX_VECTORS := 10

  predicate Eligible(v: OfferVector, time: int) {
    v.startTime != 0 && v.startTime <= time
  }

  /** The eligible vector with the latest start; of several with the same start, the last one. */
  function FindActive(vs: seq<OfferVector>, time: int): Option<OfferVector> {
    if vs == [] then None
    else Later(FindActive(vs[..|vs| - 1], time), vs[|vs| - 1], time)
  }

  function Later(best: Option<OfferVector>, v: OfferVector, time: int): Option<OfferVector> {
    if Eligible(v, time) && (best.None? || best.value.startTime <= v.startTime) then Some(v) else best
  }

  /** `active` is a vector of the latest start among those that have started. */
  ghost predicate IsActive(vs: seq<OfferVector>, time: int, active: Option<OfferVector>) {
    match active
    case None => forall v | v in vs :: !Eligible(v, time)
    case Some(a) => a in vs && Eligible(a, time) && forall v | v in vs && Eligible(v, time) :: v.startTime <= a.startTime
  }

  lemma {:induction false} FindActiveIsActive(vs: seq<OfferVector>, time: int)
    ensures IsActive(vs, time, FindActive(vs, time))
  {
    if vs != [] {
      var n := |vs| - 1;
      FindActiveIsActive(vs[..n], time);
      assert vs == vs[..n] + [vs[n]];
    }
  }

  /** When starts are distinct, being active determines the vector. */
  lemma ActiveUnique(vs: seq<OfferVector>, time: int, a: OfferVector)
    requires a in vs && Eligible(a, time)
    requires forall v | v in vs && Eligible(v, time) && v != a :: v.startTime < a.startTime
    ensures FindActive(vs, time) == Some(a)
  {
    FindActiveIsActive(vs, time);
  }

  function StartOf(v: Option<OfferVector>): nat {
    if v.Some? then v.value.startTime else 0
  }

  /** The vector that was active before the one active at `time`. */
  function FindPrevious(vs: seq<OfferVector>, time: int): Option<OfferVector> {
    var active := FindActive(vs, time);
    if active.None? then None else FindActive(vs, active.value.startTime - 1)
  }

  // ---- Cleaning ----

  /** The vector that cleaning treats as active: the new one when it starts right now. */
  function ActiveForCleaning(vs: seq<OfferVector>, newVector: OfferVector, now: nat): Option<OfferVector> {
    if newVector.startTime == now then Some(newVector) else FindActive(vs, now)
  }

  /** With a start time of zero, `start_time - 1` underflows. */
  predicate CleaningPanics(newVector: OfferVector, now: nat) {
    newVector.startTime == now == 0
  }

  predicate Retired(v: OfferVector, activeStart: nat, previousStart: nat) {
    v.startTime != 0 && v.startTime != activeStart && v.startTime != previousStart && v.startTime < activeStart
  }

  function CleanSlot(v: OfferVector, activeStart: nat, previousStart: nat): OfferVector {
    if Retired(v, activeStart, previousStart) then EMPTY else v
  }

  /** Every slot that starts before `activeStart` is emptied, except the latest of them. */
  function CleanAround(vs: seq<OfferVector>, activeStart: nat): (cleaned: seq<OfferVector>)
    ensures |cleaned| == |vs|
  {
    var previousStart := StartOf(FindActive(vs, activeStart - 1));
    seq(|vs|, i requires 0 <= i < |vs| => CleanSlot(vs[i], activeStart, previousStart))
  }

  function Clean(vs: seq<OfferVector>, newVector: OfferVector, now: nat): (cleaned: seq<OfferVector>)
    ensures |cleaned| == |vs|
  {
    match ActiveForCleaning(vs, newVector, now)
    case None => vs
    case Some(active) => CleanAround(vs, active.startTime)
  }

  /** Emptying slots that start before some eligible vector does not change which one is active. */
  lemma {:induction false} EmptyingOlderKeepsActive(
    vs: seq<OfferVector>, cs: seq<OfferVector>, cut: nat, time: int)
    requires |cs| == |vs|
    requires forall i | 0 <= i < |vs| :: cs[i] == vs[i] || (cs[i] == EMPTY && vs[i].startTime < cut)
    ensures var a, c := FindActive(vs, time), FindActive(cs, time);
      a == c || (StartOf(a) < cut && StartOf(c) < cut)
  {
    if vs != [] {
      var n := |vs| - 1;
      EmptyingOlderKeepsActive(vs[..n], cs[..n], cut, time);
    }
  }

  /** An emptied slot started before the previous vector, which itself started before the active one. */
  lemma CleanAroundSlot(vs: seq<OfferVector>, activeStart: nat, i: nat)
    requires i < |vs|
    ensures var previousStart := StartOf(FindActive(vs, activeStart - 1));
      var slot := CleanAround(vs, activeStart)[i];
      if slot == vs[i] then !Retired(vs[i], activeStart, previousStart)
      else slot == EMPTY && 0 < vs[i].startTime < previousStart < activeStart
  {
    FindActiveIsActive(vs, activeStart - 1);
    assert vs[i] in vs;
  }

  /** Cleaning leaves every lookup from the previous vector's start onward as it was. */
  lemma CleanAroundKeepsLookups(vs: seq<OfferVector>, activeStart: nat, time: int)
    requires StartOf(FindActive(vs, activeStart - 1)) <= time
    ensures FindActive(CleanAround(vs, activeStart), time) == FindActive(vs, time)
  {
    var previous := FindActive(vs, activeStart - 1);
    forall i | 0 <= i < |vs|
      ensures var slot := CleanAround(vs, activeStart)[i];
        slot == vs[i] || (slot == EMPTY && vs[i].startTime < StartOf(previous))
    {
      CleanAroundSlot(vs, activeStart, i);
    }
    EmptyingOlderKeepsActive(vs, CleanAround(vs, activeStart), StartOf(previous), time);
    FindActiveIsActive(vs, activeStart - 1);
    FindActiveIsActive(vs, time);
  }

  lemma CleanKeepsLookups(vs: seq<OfferVector>, newVector: OfferVector, now: nat, time: int)
    requires var active := ActiveForCleaning(vs, newVector, now);
      active.Some? ==> StartOf(FindActive(vs, active.value.startTime - 1)) <= time
    ensures FindActive(Clean(vs, newVector, now), time) == FindActive(vs, time)
  {
    var active := ActiveForCleaning(vs, newVector, now);
    if active.Some? {
      CleanAroundKeepsLookups(vs, active.value.startTime, time);
    }
  }

  /** Cleaning empties only slots older than the previous vector; nothing from the active start on is touched. */
  lemma CleanTouchesOnlyOlder(vs: seq<OfferVector>, newVector: OfferVector, now: nat, i: nat)
    requires i < |vs| && Clean(vs, newVector, now)[i] != vs[i]
    ensures Clean(vs, newVector, now)[i] == EMPTY
    ensures var active := ActiveForCleaning(vs, newVector, now);
      active.Some? && 0 < vs[i].startTime < StartOf(FindActive(vs, StartOf(active) - 1)) < StartOf(active)
  {
    var active := ActiveForCleaning(vs, newVector, now);
    CleanAroundSlot(vs, StartOf(active), i);
  }

  /** Cleaning a clean array changes nothing. */
  lemma CleanIdempotent(vs: seq<OfferVector>, newVector: OfferVector, now: nat)
    requires !CleaningPanics(newVector, now)
    ensures Clean(Clean(vs, newVector, now), newVector, now) == Clean(vs, newVector, now)
  {
    var active := ActiveForCleaning(vs, newVector, now);
    if active.Some? {
      var start := active.value.startTime;
      FindActiveIsActive(vs, now);
      PreviousIsEarlier(vs, start);
      CleanAroundKeepsLookups(vs, start, start - 1);
      CleanAroundKeepsLookups(vs, start, now);
      CleanAroundIdempotent(vs, start);
    }
  }

  lemma PreviousIsEarlier(vs: seq<OfferVector>, start: nat)
    requires start > 0
    ensures StartOf(FindActive(vs, start - 1)) <= start - 1
  {
    FindActiveIsActive(vs, start - 1);
  }

  lemma CleanAroundIdempotent(vs: seq<OfferVector>, activeStart: nat)
    requires FindActive(CleanAround(vs, activeStart), activeStart - 1) == FindActive(vs, activeStart - 1)
    ensures CleanAround(CleanAround(vs, activeStart), activeStart) == CleanAround(vs, activeStart)
  {
  }

  // ---- Free slots ----

  /** The position of the first empty slot. */
  function FirstEmpty(vs: seq<OfferVector>): (index: Option<nat>)
    ensures index.None? <==> forall i | 0 <= i < |vs| :: vs[i].startTime != 0
    ensures index.Some? ==> index.value < |vs| && vs[index.value].startTime == 0
    ensures index.Some? ==> forall i | 0 <= i < index.value :: vs[i].startTime != 0
  {
    if vs == [] then None
    else if vs[0].startTime == 0 then Some(0)
    else
      assert forall i | 0 <= i < |vs| - 1 :: vs[1..][i] == vs[i + 1];
      var rest := FirstEmpty(vs[1..]);
      if rest.None? then None else Some(rest.value + 1)
  }

  /** No two stored vectors start at the same time. */
  ghost predicate DistinctStarts(vs: seq<OfferVector>) {
    forall i, j | 0 <= i < j < |vs| && vs[i].startTime != 0 :: vs[i].startTime != vs[j].startTime
  }

  ghost predicate StoredAt(vs: seq<OfferVector>, i: int, start: nat) {
    start != 0 && 0 <= i < |vs| && vs[i].startTime == start
  }

  /** The start times in the array. */
  ghost function Starts(vs: seq<OfferVector>): set<nat> {
    set i | 0 <= i < |vs| && vs[i].startTime != 0 :: vs[i].startTime as nat
  }

  lemma StartIsStored(vs: seq<OfferVector>, t: nat)
    ensures t in Starts(vs) <==> exists i :: StoredAt(vs, i, t)
  {
    if t in Starts(vs) {
      var i :| 0 <= i < |vs| && vs[i].startTime != 0 && vs[i].startTime == t;
      assert StoredAt(vs, i, t);
    }
  }

  ghost function Future(vs: seq<OfferVector>, now: int): set<nat> {
    set t | t in Starts(vs) && t > now
  }

  ghost function Past(vs: seq<OfferVector>, now: int): set<nat> {
    set t | t in Starts(vs) && t <= now
  }

  function Min(x: nat, y: nat): nat {
    if x <= y then x else y
  }

  /** With distinct starts, an array is full exactly when it has as many starts as slots. */
  lemma {:induction false} FullIffAllStarts(vs: seq<OfferVector>)
    requires DistinctStarts(vs)
    ensures |Starts(vs)| <= |vs|
    ensures FirstEmpty(vs).None? <==> |Starts(vs)| == |vs|
  {
    if vs != [] {
      var n := |vs| - 1;
      FullIffAllStarts(vs[..n]);
      StartsOfFront(vs);
    }
  }

  lemma StartsOfFront(vs: seq<OfferVector>)
    requires DistinctStarts(vs) && vs != []
    ensures var n := |vs| - 1;
      |Starts(vs)| == |Starts(vs[..n])| + (if vs[n].startTime != 0 then 1 else 0)
  {
    var n := |vs| - 1;
    var last: nat := vs[n].startTime;
    if last == 0 {
      assert Starts(vs) == Starts(vs[..n]);
    } else {
      assert Starts(vs) == Starts(vs[..n]) + {last};
      StartIsStored(vs[..n], last);
    }
  }

  ghost function Only(v: Option<OfferVector>): set<nat> {
    if v.Some? then {StartOf(v)} else {}
  }

  /** What cleaning leaves: everything from the active start on, and the previous start. */
  lemma StartsAfterClean(vs: seq<OfferVector>, activeStart: nat)
    requires activeStart > 0
    ensures Starts(CleanAround(vs, activeStart))
         == Future(vs, activeStart - 1) + Only(FindActive(vs, activeStart - 1))
  {
    var cs := CleanAround(vs, activeStart);
    var previous := FindActive(vs, activeStart - 1);
    forall t: nat
      ensures t in Starts(cs) <==> t in Future(vs, activeStart - 1) + Only(previous)
    {
      StartIsStored(vs, t);
      StartIsStored(cs, t);
      StartKept(vs, activeStart, t);
    }
  }

  lemma StartKept(vs: seq<OfferVector>, activeStart: nat, t: nat)
    requires activeStart > 0
    ensures (exists i :: StoredAt(CleanAround(vs, activeStart), i, t))
       <==> (exists i :: StoredAt(vs, i, t)) && (t >= activeStart || t == StartOf(FindActive(vs, activeStart - 1)))
    ensures var previous := FindActive(vs, activeStart - 1);
      previous.Some? ==> exists i :: StoredAt(vs, i, StartOf(previous))
  {
    var cs := CleanAround(vs, activeStart);
    var previous := FindActive(vs, activeStart - 1);
    FindActiveIsActive(vs, activeStart - 1);
    if previous.Some? {
      var p :| 0 <= p < |vs| && vs[p] == previous.value;
      assert StoredAt(vs, p, StartOf(previous));
    }
    if i :| StoredAt(cs, i, t) {
      CleanAroundSlot(vs, activeStart, i);
      assert StoredAt(vs, i, t);
    }
    if i :| StoredAt(vs, i, t) && (t >= activeStart || t == StartOf(previous)) {
      assert StoredAt(cs, i, t);
    }
  }

  lemma CleanKeepsDistinct(vs: seq<OfferVector>, newVector: OfferVector, now: nat)
    requires DistinctStarts(vs)
    ensures DistinctStarts(Clean(vs, newVector, now))
  {
  }

  lemma NothingPast(vs: seq<OfferVector>, now: int)
    requires FindActive(vs, now).None?
    ensures Past(vs, now) == {} && Future(vs, now) == Starts(vs)
  {
    FindActiveIsActive(vs, now);
    forall t | t in Starts(vs)
      ensures t > now
    {
      StartIsStored(vs, t);
      var i :| StoredAt(vs, i, t);
      assert vs[i] in vs;
    }
  }

  /** The active start is the latest of the past. */
  lemma ActiveIsLatest(vs: seq<OfferVector>, now: int)
    requires FindActive(vs, now).Some?
    ensures StartOf(FindActive(vs, now)) in Past(vs, now)
    ensures forall t | t in Past(vs, now) :: t <= StartOf(FindActive(vs, now))
  {
    FindActiveIsActive(vs, now);
    var a := FindActive(vs, now).value;
    var p :| 0 <= p < |vs| && vs[p] == a;
    StartIsStored(vs, a.startTime);
    assert StoredAt(vs, p, a.startTime);
    forall t | t in Past(vs, now)
      ensures t <= a.startTime
    {
      StartIsStored(vs, t);
      var i :| StoredAt(vs, i, t);
      assert vs[i] in vs && Eligible(vs[i], now);
    }
  }

  lemma OlderIsPast(vs: seq<OfferVector>, time: int)
    ensures Only(FindActive(vs, time)) <= Past(vs, time)
    ensures |Only(FindActive(vs, time))| == Min(1, |Past(vs, time)|)
  {
    if FindActive(vs, time).None? {
      NothingPast(vs, time);
    } else {
      ActiveIsLatest(vs, time);
      assert |Past(vs, time) - {StartOf(FindActive(vs, time))}| == |Past(vs, time)| - 1;
    }
  }

  /** Of the past, cleaning around `activeStart` keeps one start before it. */
  lemma KeptCount(vs: seq<OfferVector>, activeStart: nat)
    requires activeStart > 0
    ensures |Starts(CleanAround(vs, activeStart))|
         == |Future(vs, activeStart - 1)| + Min(1, |Past(vs, activeStart - 1)|)
  {
    StartsAfterClean(vs, activeStart);
    OlderIsPast(vs, activeStart - 1);
    assert Future(vs, activeStart - 1) !! Only(FindActive(vs, activeStart - 1));
  }

  lemma KeptWithOldActive(vs: seq<OfferVector>, now: nat)
    requires FindActive(vs, now).Some?
    ensures var start := StartOf(FindActive(vs, now));
      |Starts(CleanAround(vs, start))| == |Future(vs, now)| + Min(2, |Past(vs, now)|)
  {
    var start: nat := StartOf(FindActive(vs, now));
    ActiveIsLatest(vs, now);
    StartIsStored(vs, start);
    KeptCount(vs, start);
    forall t | t in Starts(vs)
      ensures t <= start - 1 <==> t <= now && t != start
    {
      assert t <= now ==> t in Past(vs, now);
    }
    assert Past(vs, start - 1) == Past(vs, now) - {start};
    assert Future(vs, start - 1) == Future(vs, now) + {start};
  }

  /** How many vectors cleaning leaves: those to come, and one or two of the past. */
  lemma CleanedCount(vs: seq<OfferVector>, newVector: OfferVector, now: nat)
    requires !CleaningPanics(newVector, now) && newVector.startTime !in Starts(vs)
    ensures |Starts(Clean(vs, newVector, now))|
         == |Future(vs, now)| + Min(if newVector.startTime == now then 1 else 2, |Past(vs, now)|)
  {
    if newVector.startTime == now {
      CountAroundNew(vs, now);
    } else if FindActive(vs, now).None? {
      NothingPast(vs, now);
    } else {
      KeptWithOldActive(vs, now);
    }
  }

  lemma CountAroundNew(vs: seq<OfferVector>, now: nat)
    requires now > 0
    ensures |Starts(CleanAround(vs, now))| == |Future(vs, now - 1)| + Min(1, |Past(vs, now - 1)|)
    ensures now !in Starts(vs) ==> Future(vs, now - 1) == Future(vs, now) && Past(vs, now - 1) == Past(vs, now)
  {
    KeptCount(vs, now);
  }

  /**
   Cleaning makes room for a new vector exactly when the vectors still to come, together with the
   one or two it keeps from the past, leave a slot.
   */
  lemma FreeSlotIff(vs: seq<OfferVector>, newVector: OfferVector, now: nat)
    requires !CleaningPanics(newVector, now) && DistinctStarts(vs)
    requires newVector.startTime !in Starts(vs)
    ensures FirstEmpty(Clean(vs, newVector, now)).Some? <==>
      |Future(vs, now)| + Min(if newVector.startTime == now then 1 else 2, |Past(vs, now)|) < |vs|
  {
    CleanKeepsDistinct(vs, newVector, now);
    FullIffAllStarts(Clean(vs, newVector, now));
    CleanedCount(vs, newVector, now);
  }

  /** In particular, cleaning always makes room while at most seven vectors are still to come. */
  lemma RoomWithSevenToCome(vs: seq<OfferVector>, newVector: OfferVector, now: nat)
    requires |vs| == MAX_VECTORS && !CleaningPanics(newVector, now) && DistinctStarts(vs)
    requires newVector.startTime !in Starts(vs)
    requires |Future(vs, now)| <= 7
    ensures FirstEmpty(Clean(vs, newVector, now)).Some?
  {
    FreeSlotIff(vs, newVector, now);
  }

  // ---- Whole runs ----

  /** The array as it is, the time it is, and every vector ever added. */
  datatype State = State(now: nat, slots: seq<OfferVector>, log: seq<OfferVector>)

  datatype Step = Advance(seconds: nat) | Add(v: OfferVector)

  function Insert(vs: seq<OfferVector>, v: OfferVector): seq<OfferVector> {
    match FirstEmpty(vs)
    case None => vs
    case Some(i) => vs[i := v]
  }

  /** There is something to store, and cleaning leaves a slot for it. */
  predicate HasRoom(s: State, v: OfferVector) {
    v.startTime != 0 && FirstEmpty(Clean(s.slots, v, s.now)).Some?
  }

  /** A vector can be added when its start is not zero, no stored vector has it, and cleaning leaves a slot. */
  ghost predicate Enabled(s: State, step: Step) {
    match step
    case Advance(_) => true
    case Add(v) => HasRoom(s, v) && v.startTime !in Starts(s.slots)
  }

  function Next(s: State, step: Step): State {
    match step
    case Advance(seconds) => s.(now := s.now + seconds)
    case Add(v) => s.(slots := Insert(Clean(s.slots, v, s.now), v), log := s.log + [v])
  }

  function Run(s: State, steps: seq<Step>): State
    decreases |steps|
  {
    if steps == [] then s else Run(Next(s, steps[0]), steps[1..])
  }

  ghost predicate EnabledRun(s: State, steps: seq<Step>)
    decreases |steps|
  {
    steps == [] || (Enabled(s, steps[0]) && EnabledRun(Next(s, steps[0]), steps[1..]))
  }

  function Fresh(now: nat): State {
    State(now, seq(MAX_VECTORS, _ => EMPTY), [])
  }

  /** `e` started before two stored vectors that have both started: nothing will look it up again. */
  ghost predicate Forgotten(slots: seq<OfferVector>, now: nat, e: OfferVector) {
    exists a, p :: a in slots && p in slots && e.startTime < p.startTime < a.startTime <= now
  }

  /** What every step keeps: the array is the log without vectors that can no longer matter. */
  ghost predicate Inv(s: State) {
    && |s.slots| == MAX_VECTORS
    && DistinctStarts(s.slots)
    && (forall v | v in s.slots && v.startTime != 0 :: v in s.log)
    && (forall e | e in s.log :: e.startTime != 0 && (e in s.slots || Forgotten(s.slots, s.now, e)))
  }

  lemma InvFresh(now: nat)
    ensures Inv(Fresh(now))
  {
  }

  /** A cleaned-away vector is forgotten once the new vector is stored. */
  lemma CleanedIsForgotten(s: State, v: OfferVector, i: nat)
    requires HasRoom(s, v) && i < |s.slots|
    requires Clean(s.slots, v, s.now)[i] != s.slots[i]
    ensures Forgotten(Next(s, Add(v)).slots, s.now, s.slots[i])
  {
    CleanTouchesOnlyOlder(s.slots, v, s.now, i);
    var active, previous := ActiveAndPreviousStored(s, v);
    ForgottenBy(Next(s, Add(v)).slots, s.now, s.slots[i], active, previous);
  }

  /** A stored vector that cleaning keeps is still stored after the insertion. */
  lemma KeptIsStored(s: State, v: OfferVector, e: OfferVector)
    requires HasRoom(s, v) && e in s.slots && e.startTime != 0
    requires var active := ActiveForCleaning(s.slots, v, s.now);
      active.Some? ==> e.startTime >= StartOf(FindActive(s.slots, StartOf(active) - 1))
    ensures e in Next(s, Add(v)).slots
  {
    var i :| 0 <= i < |s.slots| && s.slots[i] == e;
    var cleaned := Clean(s.slots, v, s.now);
    if cleaned[i] != e {
      CleanTouchesOnlyOlder(s.slots, v, s.now, i);
      assert false;
    }
    assert Next(s, Add(v)).slots[i] == e;
  }

  /** The active and the previous vector of a cleaning are both stored after the insertion. */
  lemma ActiveAndPreviousStored(s: State, v: OfferVector) returns (active: OfferVector, previous: OfferVector)
    requires HasRoom(s, v)
    requires ActiveForCleaning(s.slots, v, s.now).Some?
    requires FindActive(s.slots, StartOf(ActiveForCleaning(s.slots, v, s.now)) - 1).Some?
    ensures Some(active) == ActiveForCleaning(s.slots, v, s.now)
    ensures Some(previous) == FindActive(s.slots, active.startTime - 1)
    ensures active in Next(s, Add(v)).slots && previous in Next(s, Add(v)).slots
    ensures previous.startTime < active.startTime <= s.now
  {
    active := ActiveForCleaning(s.slots, v, s.now).value;
    previous := FindActive(s.slots, active.startTime - 1).value;
    FindActiveIsActive(s.slots, s.now);
    FindActiveIsActive(s.slots, active.startTime - 1);
    KeptIsStored(s, v, previous);
    if v.startTime == s.now {
      assert Next(s, Add(v)).slots[FirstEmpty(Clean(s.slots, v, s.now)).value] == v;
    } else {
      KeptIsStored(s, v, active);
    }
  }

  /** Two vectors that have started leave something previous, at least as late as the earlier one. */
  lemma PreviousAtLeast(vs: seq<OfferVector>, v: OfferVector, now: nat, a: OfferVector, p: OfferVector)
    requires a in vs && p in vs && 0 < p.startTime < a.startTime <= now
    ensures var active := ActiveForCleaning(vs, v, now);
      active.Some? && StartOf(FindActive(vs, StartOf(active) - 1)) >= p.startTime
  {
    var active := ActiveForCleaning(vs, v, now);
    FindActiveIsActive(vs, now);
    assert Eligible(a, now);
    StoredStart(vs, a);
    FindActiveIsActive(vs, StartOf(active) - 1);
    assert Eligible(p, StartOf(active) - 1);
  }

  /** What was forgotten before an insertion is forgotten after it. */
  lemma StaysForgotten(s: State, v: OfferVector, e: OfferVector)
    requires HasRoom(s, v) && Forgotten(s.slots, s.now, e)
    ensures Forgotten(Next(s, Add(v)).slots, s.now, e)
  {
    var a, p :| a in s.slots && p in s.slots && e.startTime < p.startTime < a.startTime <= s.now;
    StaysForgottenBy(s, v, e, a, p);
  }

  lemma StaysForgottenBy(s: State, v: OfferVector, e: OfferVector, a: OfferVector, p: OfferVector)
    requires HasRoom(s, v)
    requires a in s.slots && p in s.slots && e.startTime < p.startTime < a.startTime <= s.now
    ensures Forgotten(Next(s, Add(v)).slots, s.now, e)
  {
    PreviousAtLeast(s.slots, v, s.now, a, p);
    var active, previous := ActiveAndPreviousStored(s, v);
    ForgottenBy(Next(s, Add(v)).slots, s.now, e, active, previous);
  }

  lemma ForgottenBy(slots: seq<OfferVector>, now: nat, e: OfferVector, a: OfferVector, p: OfferVector)
    requires a in slots && p in slots && e.startTime < p.startTime < a.startTime <= now
    ensures Forgotten(slots, now, e)
  {
  }

  lemma StoredStart(vs: seq<OfferVector>, v: OfferVector)
    requires v in vs && v.startTime != 0
    ensures v.startTime in Starts(vs)
  {
  }

  lemma InsertedAreDistinct(s: State, v: OfferVector)
    requires DistinctStarts(s.slots) && Enabled(s, Add(v))
    ensures DistinctStarts(Next(s, Add(v)).slots)
  {
    var cleaned := Clean(s.slots, v, s.now);
    CleanKeepsDistinct(s.slots, v, s.now);
    forall i | 0 <= i < |cleaned|
      ensures cleaned[i].startTime != v.startTime
    {
      if cleaned[i] != s.slots[i] {
        CleanTouchesOnlyOlder(s.slots, v, s.now, i);
      } else if s.slots[i].startTime != 0 {
        StoredStart(s.slots, s.slots[i]);
      }
    }
  }

  /** Every vector of the log is still stored or forgotten after an insertion. */
  lemma LogCovered(s: State, v: OfferVector, e: OfferVector)
    requires Inv(s) && HasRoom(s, v) && e in s.log
    ensures e in Next(s, Add(v)).slots || Forgotten(Next(s, Add(v)).slots, s.now, e)
  {
    if e in s.slots {
      var i :| 0 <= i < |s.slots| && s.slots[i] == e;
      if Clean(s.slots, v, s.now)[i] != e {
        CleanedIsForgotten(s, v, i);
      } else {
        assert Next(s, Add(v)).slots[i] == e;
      }
    } else {
      StaysForgotten(s, v, e);
    }
  }

  lemma SlotsFromLog(s: State, v: OfferVector, e: OfferVector)
    requires Inv(s) && HasRoom(s, v) && e in Next(s, Add(v)).slots && e.startTime != 0
    ensures e == v || e in s.log
  {
  }

  /** Every step keeps the invariant. */
  lemma InvNext(s: State, step: Step)
    requires Inv(s) && Enabled(s, step)
    ensures Inv(Next(s, step))
  {
    var s' := Next(s, step);
    match step
    case Advance(_) =>
      forall e | e in s.log && e !in s.slots
        ensures Forgotten(s'.slots, s'.now, e)
      {
        var a, p :| a in s.slots && p in s.slots && e.startTime < p.startTime < a.startTime <= s.now;
      }
    case Add(v) =>
      InsertedAreDistinct(s, v);
      forall e | e in s'.slots && e.startTime != 0
        ensures e in s'.log
      {
        SlotsFromLog(s, v, e);
      }
      forall e | e in s'.log
        ensures e.startTime != 0 && (e in s'.slots || Forgotten(s'.slots, s'.now, e))
      {
        if e == v {
          assert s'.slots[FirstEmpty(Clean(s.slots, v, s.now)).value] == v;
        } else {
          LogCovered(s, v, e);
        }
      }
  }

  lemma {:induction false} InvRun(s: State, steps: seq<Step>)
    requires Inv(s) && EnabledRun(s, steps)
    ensures Inv(Run(s, steps))
    decreases |steps|
  {
    if steps != [] {
      InvNext(s, steps[0]);
      InvRun(Next(s, steps[0]), steps[1..]);
    }
  }

  // ---- Lookups in the array and in the log ----

  /** The last vector with a given start. */
  function LastWith(vs: seq<OfferVector>, start: nat): Option<OfferVector> {
    if vs == [] then None
    else if vs[|vs| - 1].startTime == start then Some(vs[|vs| - 1])
    else LastWith(vs[..|vs| - 1], start)
  }

  lemma {:induction false} LastWithIsLast(vs: seq<OfferVector>, start: nat, k: nat)
    requires k < |vs| && vs[k].startTime == start
    requires forall m | k < m < |vs| && vs[m].startTime == start :: vs[m] == vs[k]
    ensures LastWith(vs, start) == Some(vs[k])
  {
    var n := |vs| - 1;
    if k < n && vs[n].startTime != start {
      LastWithIsLast(vs[..n], start, k);
    }
  }

  /** Of the vectors with the latest start that has come, the lookup gives the last. */
  lemma {:induction false} ActiveIsLast(vs: seq<OfferVector>, time: int)
    requires FindActive(vs, time).Some?
    ensures FindActive(vs, time) == LastWith(vs, StartOf(FindActive(vs, time)))
  {
    var n := |vs| - 1;
    if FindActive(vs, time) != Some(vs[n]) {
      FindActiveIsActive(vs[..n], time);
      ActiveIsLast(vs[..n], time);
    }
  }

  /** The array has the same last word as the log on every start that a lookup can still meet. */
  ghost predicate SameLast(slots: seq<OfferVector>, log: seq<OfferVector>, now: nat) {
    forall v | v in slots && v.startTime != 0 && !Forgotten(slots, now, v) ::
      LastWith(slots, v.startTime) == LastWith(log, v.startTime)
  }

  /** What insertion keeps even of a start that is used again. */
  ghost predicate Covers(slots: seq<OfferVector>, log: seq<OfferVector>, now: nat) {
    && (forall v | v in slots && v.startTime != 0 :: v in log)
    && (forall e | e in log :: e in slots || Forgotten(slots, now, e))
  }

  /** Array and log name the same start at a time when every forgotten vector is outdone by a stored one. */
  lemma SameStartAt(slots: seq<OfferVector>, log: seq<OfferVector>, time: int)
    requires forall v | v in slots && v.startTime != 0 :: v in log
    requires forall e | e in log :: e in slots || Outdone(slots, e, time)
    ensures StartOf(FindActive(slots, time)) == StartOf(FindActive(log, time))
    ensures FindActive(slots, time).Some? <==> FindActive(log, time).Some?
  {
    FindActiveIsActive(slots, time);
    FindActiveIsActive(log, time);
  }

  lemma SameActive(slots: seq<OfferVector>, log: seq<OfferVector>, now: nat, time: int)
    requires Covers(slots, log, now) && SameLast(slots, log, now) && time >= now
    ensures FindActive(slots, time) == FindActive(log, time)
  {
    OutdoneNow(slots, log, now, time);
    SameStartAt(slots, log, time);
    SameVectorAt(slots, log, now, time);
  }

  lemma SameBefore(slots: seq<OfferVector>, log: seq<OfferVector>, now: nat, time: int)
    requires Covers(slots, log, now) && SameLast(slots, log, now) && time >= now
    requires FindActive(slots, time).Some?
    ensures var before := StartOf(FindActive(slots, time)) - 1; FindActive(slots, before) == FindActive(log, before)
  {
    var before := StartOf(FindActive(slots, time)) - 1;
    OutdoneBefore(slots, log, now, time);
    SameStartAt(slots, log, before);
    SameVectorAt(slots, log, now, before);
  }

  lemma SamePrevious(slots: seq<OfferVector>, log: seq<OfferVector>, time: int)
    requires FindActive(slots, time) == FindActive(log, time)
    requires FindActive(slots, time).Some? ==>
      var before := StartOf(FindActive(slots, time)) - 1; FindActive(slots, before) == FindActive(log, before)
    ensures FindPrevious(slots, time) == FindPrevious(log, time)
  {
  }

  lemma SameVectorAt(slots: seq<OfferVector>, log: seq<OfferVector>, now: nat, time: int)
    requires SameLast(slots, log, now)
    requires forall v | v in slots && Forgotten(slots, now, v) :: Outdone(slots, v, time)
    requires StartOf(FindActive(slots, time)) == StartOf(FindActive(log, time))
    requires FindActive(slots, time).Some? <==> FindActive(log, time).Some?
    ensures FindActive(slots, time) == FindActive(log, time)
  {
    if FindActive(slots, time).Some? {
      FindActiveIsActive(slots, time);
      ActiveIsLast(slots, time);
      ActiveIsLast(log, time);
    }
  }

  /** Some stored vector is active later than `e`, if `e` is eligible at all. */
  ghost predicate Outdone(slots: seq<OfferVector>, e: OfferVector, time: int) {
    exists p :: p in slots && Eligible(p, time) && e.startTime < p.startTime
  }

  lemma OutdoneNow(slots: seq<OfferVector>, log: seq<OfferVector>, now: nat, time: int)
    requires Covers(slots, log, now) && time >= now
    ensures forall e | Forgotten(slots, now, e) :: Outdone(slots, e, time)
  {
    forall e | Forgotten(slots, now, e)
      ensures Outdone(slots, e, time)
    {
      var a, p :| a in slots && p in slots && e.startTime < p.startTime < a.startTime <= now;
      assert Eligible(a, time);
    }
  }

  /** The same just before the active start. */
  lemma OutdoneBefore(slots: seq<OfferVector>, log: seq<OfferVector>, now: nat, time: int)
    requires Covers(slots, log, now) && time >= now && FindActive(slots, time).Some?
    ensures forall e | Forgotten(slots, now, e) :: Outdone(slots, e, StartOf(FindActive(slots, time)) - 1)
  {
    var before := StartOf(FindActive(slots, time)) - 1;
    FindActiveIsActive(slots, time);
    forall e | Forgotten(slots, now, e)
      ensures Outdone(slots, e, before)
    {
      var a, p :| a in slots && p in slots && e.startTime < p.startTime < a.startTime <= now;
      assert Eligible(a, time);
      assert Eligible(p, before);
    }
  }

  /** The array and the log give the same answers at a time. */
  predicate AgreeAtTime(slots: seq<OfferVector>, log: seq<OfferVector>, time: int) {
    FindActive(slots, time) == FindActive(log, time) && FindPrevious(slots, time) == FindPrevious(log, time)
  }

  lemma AgreeWhenSameLast(slots: seq<OfferVector>, log: seq<OfferVector>, now: nat, time: int)
    requires Covers(slots, log, now) && SameLast(slots, log, now) && time >= now
    ensures AgreeAtTime(slots, log, time)
  {
    SameActive(slots, log, now, time);
    if FindActive(slots, time) != None {
      SameBefore(slots, log, now, time);
    }
    SamePrevious(slots, log, time);
  }

  lemma LastWithOnly(vs: seq<OfferVector>, v: OfferVector)
    requires v in vs && forall e | e in vs && e.startTime == v.startTime :: e == v
    ensures LastWith(vs, v.startTime) == Some(v)
  {
    var k :| 0 <= k < |vs| && vs[k] == v;
    LastWithIsLast(vs, v.startTime, k);
  }

  lemma StoredOnce(vs: seq<OfferVector>, v: OfferVector, e: OfferVector)
    requires DistinctStarts(vs) && v in vs && e in vs && v.startTime == e.startTime != 0
    ensures v == e
  {
    var i :| 0 <= i < |vs| && vs[i] == v;
    var j :| 0 <= j < |vs| && vs[j] == e;
    assert i == j || i < j || j < i;
  }

  lemma InvSameLast(s: State)
    requires Inv(s)
    ensures Covers(s.slots, s.log, s.now) && SameLast(s.slots, s.log, s.now)
  {
    forall v | v in s.slots && v.startTime != 0 && !Forgotten(s.slots, s.now, v)
      ensures LastWith(s.slots, v.startTime) == LastWith(s.log, v.startTime)
    {
      VisibleOnce(s, v);
      LastWithOnly(s.slots, v);
      LastWithOnly(s.log, v);
    }
  }

  /** A start that a lookup can still meet belongs to one vector, stored and logged. */
  lemma VisibleOnce(s: State, v: OfferVector)
    requires Inv(s) && v in s.slots && v.startTime != 0 && !Forgotten(s.slots, s.now, v)
    ensures forall e | (e in s.slots || e in s.log) && e.startTime == v.startTime :: e == v
  {
    forall e | (e in s.slots || e in s.log) && e.startTime == v.startTime
      ensures e == v
    {
      assert !Forgotten(s.slots, s.now, e);
      StoredOnce(s.slots, v, e);
    }
  }

  /** From now on, the array and the log name the same active and the same previous vector. */
  lemma ArrayRefinesLog(s: State, time: int)
    requires Inv(s) && time >= s.now
    ensures FindActive(s.slots, time) == FindActive(s.log, time)
    ensures FindPrevious(s.slots, time) == FindPrevious(s.log, time)
  {
    InvSameLast(s);
    AgreeWhenSameLast(s.slots, s.log, s.now, time);
  }

  /** Over every run from an empty array, cleaning is invisible to every lookup that can still be made. */
  lemma EveryRunRefinesLog(start: nat, steps: seq<Step>, time: int)
    requires EnabledRun(Fresh(start), steps)
    requires time >= Run(Fresh(start), steps).now
    ensures var s := Run(Fresh(start), steps);
      && FindActive(s.slots, time) == FindActive(s.log, time)
      && FindPrevious(s.slots, time) == FindPrevious(s.log, time)
  {
    InvFresh(start);
    InvRun(Fresh(start), steps);
    ArrayRefinesLog(Run(Fresh(start), steps), time);
  }

  // ---- Using a start again ----

  /** No other vector with the same start, kept by cleaning, lies behind the slot that is filled. */
  predicate FillsBehind(s: State, v: OfferVector)
    requires HasRoom(s, v)
  {
    var cleaned := Clean(s.slots, v, s.now);
    forall j | FirstEmpty(cleaned).value < j < |cleaned| && cleaned[j].startTime == v.startTime :: cleaned[j] == v
  }

  ghost predicate AgreeFromNow(s: State) {
    forall time: int | time >= s.now :: AgreeAtTime(s.slots, s.log, time)
  }

  lemma InsertionCovers(s: State, v: OfferVector)
    requires Inv(s) && HasRoom(s, v)
    ensures Covers(Next(s, Add(v)).slots, Next(s, Add(v)).log, s.now)
  {
    var s' := Next(s, Add(v));
    forall e | e in s'.slots && e.startTime != 0
      ensures e in s'.log
    {
      SlotsFromLog(s, v, e);
    }
    forall e | e in s'.log
      ensures e in s'.slots || Forgotten(s'.slots, s'.now, e)
    {
      if e == v {
        assert s'.slots[FirstEmpty(Clean(s.slots, v, s.now)).value] == v;
      } else {
        LogCovered(s, v, e);
      }
    }
  }

  lemma KeptByCleaning(vs: seq<OfferVector>, v: OfferVector, now: nat, k: nat)
    requires k < |vs| && Clean(vs, v, now)[k].startTime != 0
    ensures Clean(vs, v, now)[k] == vs[k]
  {
  }

  /** Where a vector of the new array comes from. */
  lemma SlotOrigin(s: State, v: OfferVector, k: nat)
    requires HasRoom(s, v) && k < |s.slots| && Next(s, Add(v)).slots[k].startTime != 0
    ensures k != FirstEmpty(Clean(s.slots, v, s.now)).value ==>
      Next(s, Add(v)).slots[k] == Clean(s.slots, v, s.now)[k] == s.slots[k]
  {
    if k != FirstEmpty(Clean(s.slots, v, s.now)).value {
      KeptByCleaning(s.slots, v, s.now, k);
    }
  }

  /** Starts other than the inserted one are stored once. */
  lemma OtherStartsOnce(s: State, v: OfferVector, u: OfferVector, e: OfferVector)
    requires Inv(s) && HasRoom(s, v)
    requires u in Next(s, Add(v)).slots && e in Next(s, Add(v)).slots && u.startTime == e.startTime
    requires u.startTime != 0 && u.startTime != v.startTime
    ensures u == e
  {
    var slots := Next(s, Add(v)).slots;
    var i :| 0 <= i < |slots| && slots[i] == u;
    var j :| 0 <= j < |slots| && slots[j] == e;
    SlotOrigin(s, v, i);
    SlotOrigin(s, v, j);
    StoredOnce(s.slots, u, e);
  }

  lemma OtherStartsSameLast(s: State, v: OfferVector, u: OfferVector)
    requires Inv(s) && HasRoom(s, v)
    requires u in Next(s, Add(v)).slots && u.startTime != 0 && u.startTime != v.startTime
    requires !Forgotten(Next(s, Add(v)).slots, s.now, u)
    ensures LastWith(Next(s, Add(v)).slots, u.startTime) == LastWith(Next(s, Add(v)).log, u.startTime)
  {
    var s' := Next(s, Add(v));
    InsertionCovers(s, v);
    forall e | (e in s'.slots || e in s'.log) && e.startTime == u.startTime
      ensures e == u
    {
      assert !Forgotten(s'.slots, s.now, e);
      OtherStartsOnce(s, v, u, e);
    }
    LastWithOnly(s'.slots, u);
    LastWithOnly(s'.log, u);
  }

  /** Of the inserted start, the array has the new vector last when it fills a slot behind. */
  lemma BehindIsLast(s: State, v: OfferVector)
    requires HasRoom(s, v) && FillsBehind(s, v)
    ensures LastWith(Next(s, Add(v)).slots, v.startTime) == Some(v)
  {
    LastWithIsLast(Next(s, Add(v)).slots, v.startTime, FirstEmpty(Clean(s.slots, v, s.now)).value);
  }

  /** Otherwise it has a vector last that was there before. */
  lemma InFrontIsNotLast(s: State, v: OfferVector) returns (w: OfferVector)
    requires HasRoom(s, v) && !FillsBehind(s, v) && DistinctStarts(s.slots)
    ensures w != v && w.startTime == v.startTime && w in s.slots && w in Clean(s.slots, v, s.now)
    ensures LastWith(Next(s, Add(v)).slots, v.startTime) == Some(w)
  {
    var cleaned := Clean(s.slots, v, s.now);
    CleanKeepsDistinct(s.slots, v, s.now);
    var j :| FirstEmpty(cleaned).value < j < |cleaned| && cleaned[j].startTime == v.startTime && cleaned[j] != v;
    w := cleaned[j];
    KeptByCleaning(s.slots, v, s.now, j);
    LastWithIsLast(Next(s, Add(v)).slots, v.startTime, j);
  }

  lemma FillingBehindAgrees(s: State, v: OfferVector)
    requires Inv(s) && HasRoom(s, v) && FillsBehind(s, v)
    ensures AgreeFromNow(Next(s, Add(v)))
  {
    var s' := Next(s, Add(v));
    InsertionCovers(s, v);
    BehindIsLast(s, v);
    forall u | u in s'.slots && u.startTime != 0 && !Forgotten(s'.slots, s.now, u)
      ensures LastWith(s'.slots, u.startTime) == LastWith(s'.log, u.startTime)
    {
      if u.startTime != v.startTime {
        OtherStartsSameLast(s, v, u);
      }
    }
    forall time: int | time >= s'.now
      ensures AgreeAtTime(s'.slots, s'.log, time)
    {
      AgreeWhenSameLast(s'.slots, s'.log, s'.now, time);
    }
  }

  /** A lookup that meets the inserted start tells array and log apart unless the array has the new vector last. */
  lemma MeetingTellsApart(s: State, v: OfferVector, time: int)
    requires DistinctStarts(s.slots) && HasRoom(s, v) && !FillsBehind(s, v)
    requires StartOf(FindActive(Next(s, Add(v)).slots, time)) == v.startTime
    ensures FindActive(Next(s, Add(v)).slots, time) != FindActive(Next(s, Add(v)).log, time)
  {
    var s' := Next(s, Add(v));
    var w := InFrontIsNotLast(s, v);
    ActiveIsLast(s'.slots, time);
    if FindActive(s'.log, time).Some? && StartOf(FindActive(s'.log, time)) == v.startTime {
      ActiveIsLast(s'.log, time);
    }
  }

  /** The new array meets the inserted start at a time when the old one met nothing later. */
  lemma MeetsStart(s: State, v: OfferVector, time: int)
    requires HasRoom(s, v) && v.startTime <= time
    requires StartOf(FindActive(s.slots, time)) <= v.startTime
    ensures StartOf(FindActive(Next(s, Add(v)).slots, time)) == v.startTime
  {
    var slots := Next(s, Add(v)).slots;
    assert slots[FirstEmpty(Clean(s.slots, v, s.now)).value] == v;
    StoredIsMet(slots, v, time);
    NothingLater(s, v, time, v.startTime);
  }

  /** A reused start that cleaning keeps is the active or the previous one, or is still to come. */
  lemma KeptIsVisible(s: State, v: OfferVector, w: OfferVector)
    requires HasRoom(s, v) && w in s.slots && w in Clean(s.slots, v, s.now) && w.startTime == v.startTime < s.now
    requires DistinctStarts(s.slots)
    ensures var active := FindActive(s.slots, s.now);
      active.Some? && (StartOf(active) == w.startTime
        || (w.startTime < StartOf(active) && StartOf(FindActive(s.slots, StartOf(active) - 1)) == w.startTime))
  {
    StoredIsMet(s.slots, w, s.now);
    var cleaned := Clean(s.slots, v, s.now);
    var k :| 0 <= k < |cleaned| && cleaned[k] == w;
    KeptByCleaning(s.slots, v, s.now, k);
    NotRetired(s.slots, StartOf(FindActive(s.slots, s.now)), k);
  }

  lemma NotRetired(vs: seq<OfferVector>, activeStart: nat, k: nat)
    requires k < |vs| && 0 < vs[k].startTime <= activeStart && CleanAround(vs, activeStart)[k] == vs[k]
    ensures vs[k].startTime == activeStart
         || (vs[k].startTime < activeStart && StartOf(FindActive(vs, activeStart - 1)) == vs[k].startTime)
  {
    CleanAroundSlot(vs, activeStart, k);
  }

  /** A time at which array and log disagree. */
  lemma FillingInFrontDisagrees(s: State, v: OfferVector) returns (time: int)
    requires DistinctStarts(s.slots) && HasRoom(s, v) && !FillsBehind(s, v)
    ensures time >= s.now && !AgreeAtTime(Next(s, Add(v)).slots, Next(s, Add(v)).log, time)
  {
    if v.startTime >= s.now {
      time := v.startTime;
      FindActiveIsActive(s.slots, time);
      TellsApartAt(s, v, time);
    } else {
      time := s.now;
      var w := InFrontIsNotLast(s, v);
      KeptIsVisible(s, v, w);
      DisagreesOnEither(s, v, StartOf(FindActive(s.slots, s.now)));
    }
  }

  lemma DisagreesOnEither(s: State, v: OfferVector, start: nat)
    requires DistinctStarts(s.slots) && HasRoom(s, v) && !FillsBehind(s, v) && v.startTime < s.now
    requires FindActive(s.slots, s.now).Some? && start == StartOf(FindActive(s.slots, s.now))
    requires start == v.startTime || (v.startTime < start && StartOf(FindActive(s.slots, start - 1)) == v.startTime)
    ensures !AgreeAtTime(Next(s, Add(v)).slots, Next(s, Add(v)).log, s.now)
  {
    if start == v.startTime {
      DisagreesOnActive(s, v);
    } else {
      DisagreesOnPrevious(s, v, start - 1);
    }
  }

  lemma DisagreesOnActive(s: State, v: OfferVector)
    requires DistinctStarts(s.slots) && HasRoom(s, v) && !FillsBehind(s, v) && v.startTime < s.now
    requires StartOf(FindActive(s.slots, s.now)) == v.startTime
    ensures !AgreeAtTime(Next(s, Add(v)).slots, Next(s, Add(v)).log, s.now)
  {
    TellsApartAt(s, v, s.now);
  }

  lemma DisagreesOnPrevious(s: State, v: OfferVector, before: nat)
    requires DistinctStarts(s.slots) && HasRoom(s, v) && !FillsBehind(s, v) && v.startTime < s.now
    requires FindActive(s.slots, s.now).Some? && before == StartOf(FindActive(s.slots, s.now)) - 1
    requires v.startTime <= before && StartOf(FindActive(s.slots, before)) == v.startTime
    ensures !AgreeAtTime(Next(s, Add(v)).slots, Next(s, Add(v)).log, s.now)
  {
    ActiveStays(s, v);
    TellsApartAt(s, v, before);
    PreviousTellsApart(Next(s, Add(v)).slots, Next(s, Add(v)).log, s.now, before);
  }

  lemma TellsApartAt(s: State, v: OfferVector, before: int)
    requires DistinctStarts(s.slots) && HasRoom(s, v) && !FillsBehind(s, v)
    requires v.startTime <= before && StartOf(FindActive(s.slots, before)) <= v.startTime
    ensures FindActive(Next(s, Add(v)).slots, before) != FindActive(Next(s, Add(v)).log, before)
  {
    MeetsStart(s, v, before);
    MeetingTellsApart(s, v, before);
  }

  lemma PreviousTellsApart(slots: seq<OfferVector>, log: seq<OfferVector>, now: int, before: int)
    requires FindActive(slots, now).Some? && before == StartOf(FindActive(slots, now)) - 1
    requires FindActive(slots, before) != FindActive(log, before)
    ensures !AgreeAtTime(slots, log, now)
  {
  }

  /** Inserting something older than the active vector leaves the active start. */
  lemma ActiveStays(s: State, v: OfferVector)
    requires HasRoom(s, v) && v.startTime < s.now && FindActive(s.slots, s.now).Some?
    requires v.startTime < StartOf(FindActive(s.slots, s.now))
    ensures FindActive(Next(s, Add(v)).slots, s.now).Some?
    ensures StartOf(FindActive(Next(s, Add(v)).slots, s.now)) == StartOf(FindActive(s.slots, s.now))
  {
    ActiveIsKept(s, v);
    StoredIsMet(Next(s, Add(v)).slots, FindActive(s.slots, s.now).value, s.now);
    NothingLater(s, v, s.now, StartOf(FindActive(s.slots, s.now)));
  }

  lemma ActiveIsKept(s: State, v: OfferVector)
    requires HasRoom(s, v) && v.startTime < s.now && FindActive(s.slots, s.now).Some?
    ensures FindActive(s.slots, s.now).value in Next(s, Add(v)).slots && Eligible(FindActive(s.slots, s.now).value, s.now)
  {
    var active := FindActive(s.slots, s.now).value;
    FindActiveIsActive(s.slots, s.now);
    PreviousIsEarlier(s.slots, active.startTime);
    KeptIsStored(s, v, active);
  }

  lemma StoredIsMet(vs: seq<OfferVector>, a: OfferVector, time: int)
    requires a in vs && Eligible(a, time)
    ensures FindActive(vs, time).Some? && StartOf(FindActive(vs, time)) >= a.startTime
  {
    FindActiveIsActive(vs, time);
  }

  /** Insertion adds no start later than those that were there and the inserted one. */
  lemma NothingLater(s: State, v: OfferVector, time: int, start: nat)
    requires HasRoom(s, v) && v.startTime <= start && StartOf(FindActive(s.slots, time)) <= start
    ensures StartOf(FindActive(Next(s, Add(v)).slots, time)) <= start
  {
    var slots := Next(s, Add(v)).slots;
    FindActiveIsActive(slots, time);
    if FindActive(slots, time).Some? {
      var k :| 0 <= k < |slots| && slots[k] == FindActive(slots, time).value;
      SlotOrigin(s, v, k);
      if slots[k] != v {
        StoredIsMet(s.slots, slots[k], time);
      }
    }
  }

  /**
   Whatever start is inserted, array and log go on agreeing exactly when no kept vector of that start
   lies behind the slot that is filled: of equal starts the lookup takes the last slot, and the log has
   the new vector last.
   */
  lemma InsertionAgreesIff(s: State, v: OfferVector)
    requires Inv(s) && HasRoom(s, v)
    ensures AgreeFromNow(Next(s, Add(v))) <==> FillsBehind(s, v)
  {
    if FillsBehind(s, v) {
      FillingBehindAgrees(s, v);
    } else {
      var time := FillingInFrontDisagrees(s, v);
    }
  }

  function Empties(n: nat): seq<OfferVector> {
    seq(n, _ => EMPTY)
  }

  lemma {:induction false} TrailingEmpties(vs: seq<OfferVector>, n: nat, time: int)
    ensures FindActive(vs + Empties(n), time) == FindActive(vs, time)
  {
    if n == 0 {
      assert vs + Empties(0) == vs;
    } else {
      var all := vs + Empties(n);
      assert all[..|all| - 1] == vs + Empties(n - 1);
      TrailingEmpties(vs, n - 1, time);
    }
  }

  /** The array after the first `|vs|` vectors of a run went in, none of which has started. */
  function Filled(vs: seq<OfferVector>): State
    requires |vs| <= MAX_VECTORS
  {
    State(0, vs + Empties(MAX_VECTORS - |vs|), vs)
  }

  /** A vector still to come goes behind those that are still to come. */
  lemma AddToCome(vs: seq<OfferVector>, v: OfferVector)
    requires |vs| < MAX_VECTORS && v.startTime > 0
    requires forall e | e in vs :: 0 < e.startTime < v.startTime
    ensures Enabled(Filled(vs), Add(v)) && Next(Filled(vs), Add(v)) == Filled(vs + [v])
  {
    NothingToClean(vs, v);
    NewToFilled(vs, v);
    InsertBehind(vs, v);
  }

  lemma NothingToClean(vs: seq<OfferVector>, v: OfferVector)
    requires |vs| <= MAX_VECTORS && v.startTime > 0 && forall e | e in vs :: 0 < e.startTime
    ensures Clean(Filled(vs).slots, v, 0) == Filled(vs).slots
  {
    NothingActive(vs, MAX_VECTORS - |vs|, 0);
  }

  lemma InsertBehind(vs: seq<OfferVector>, v: OfferVector)
    requires |vs| < MAX_VECTORS && forall e | e in vs :: 0 < e.startTime
    ensures FirstEmpty(Filled(vs).slots) == Some(|vs|)
    ensures Insert(Filled(vs).slots, v) == Filled(vs + [v]).slots
  {
    FirstEmptyBehind(vs, MAX_VECTORS - |vs|);
    assert Filled(vs).slots[|vs| := v] == vs + [v] + Empties(MAX_VECTORS - |vs| - 1);
  }

  lemma NewToFilled(vs: seq<OfferVector>, v: OfferVector)
    requires |vs| < MAX_VECTORS && v.startTime > 0
    requires forall e | e in vs :: 0 < e.startTime < v.startTime
    ensures v.startTime !in Starts(Filled(vs).slots)
  {
    forall i | 0 <= i < MAX_VECTORS
      ensures Filled(vs).slots[i].startTime != v.startTime
    {
      assert i < |vs| ==> vs[i] in vs;
    }
  }

  lemma FirstEmptyBehind(vs: seq<OfferVector>, n: nat)
    requires n > 0 && forall e | e in vs :: 0 < e.startTime
    ensures FirstEmpty(vs + Empties(n)) == Some(|vs|)
  {
    var all := vs + Empties(n);
    assert all[|vs|] == EMPTY;
    forall i | 0 <= i < |vs|
      ensures all[i].startTime != 0
    {
      assert vs[i] in vs;
    }
  }

  lemma NothingActive(vs: seq<OfferVector>, n: nat, now: nat)
    requires forall e | e in vs :: now < e.startTime
    ensures FindActive(vs + Empties(n), now) == None
  {
    TrailingEmpties(vs, n, now);
    FindActiveIsActive(vs, now);
  }

  lemma RunStep(s: State, step: Step, s': State, rest: seq<Step>, end: State)
    requires Enabled(s, step) && Next(s, step) == s' && EnabledRun(s', rest) && Run(s', rest) == end
    ensures EnabledRun(s, [step] + rest) && Run(s, [step] + rest) == end
  {
    assert ([step] + rest)[1..] == rest;
  }

  /** Three vectors go in before any has started; then the time of the third comes. */
  lemma RunOfThree(x: OfferVector, y: OfferVector, z: OfferVector)
    requires 0 < x.startTime < y.startTime < z.startTime
    ensures var steps := [Add(x)] + ([Add(y)] + ([Add(z)] + ([Advance(z.startTime)] + [])));
      EnabledRun(Fresh(0), steps)
      && Run(Fresh(0), steps) == State(z.startTime, [x, y, z] + Empties(7), [x, y, z])
  {
    FilledByThree(x, y, z);
    var end := State(z.startTime, [x, y, z] + Empties(7), [x, y, z]);
    RunStep(Filled([x, y, z]), Advance(z.startTime), end, [], end);
    RunStep(Filled([x, y]), Add(z), Filled([x, y, z]), [Advance(z.startTime)] + [], end);
    RunStep(Filled([x]), Add(y), Filled([x, y]), [Add(z)] + ([Advance(z.startTime)] + []), end);
    RunStep(Fresh(0), Add(x), Filled([x]), [Add(y)] + ([Add(z)] + ([Advance(z.startTime)] + [])), end);
  }

  lemma FilledByThree(x: OfferVector, y: OfferVector, z: OfferVector)
    requires 0 < x.startTime < y.startTime < z.startTime
    ensures Enabled(Fresh(0), Add(x)) && Next(Fresh(0), Add(x)) == Filled([x])
    ensures Enabled(Filled([x]), Add(y)) && Next(Filled([x]), Add(y)) == Filled([x, y])
    ensures Enabled(Filled([x, y]), Add(z)) && Next(Filled([x, y]), Add(z)) == Filled([x, y, z])
  {
    assert Fresh(0) == Filled([]);
    AddTo([], x, [x]);
    AddTo([x], y, [x, y]);
    AddTo([x, y], z, [x, y, z]);
  }

  lemma AddTo(vs: seq<OfferVector>, v: OfferVector, more: seq<OfferVector>)
    requires |vs| < MAX_VECTORS && v.startTime > 0 && more == vs + [v]
    requires forall e | e in vs :: 0 < e.startTime < v.startTime
    ensures Enabled(Filled(vs), Add(v)) && Next(Filled(vs), Add(v)) == Filled(more)
  {
    AddToCome(vs, v);
  }

  /**
   A run after which a vector with a stored start, if it were inserted, would break the agreement: it
   would land in a freed slot in front of the other. The instruction refuses it.
   */
  lemma DuplicateStartDiverges() returns (steps: seq<Step>, v: OfferVector, time: int)
    ensures EnabledRun(Fresh(0), steps)
    ensures var s := Run(Fresh(0), steps);
      && s.now <= U64_MAX && ValidateInputs(v, s.now, s.slots) == Some(DuplicateStartTime)
      && HasRoom(s, v) && time >= s.now
      && !AgreeAtTime(Next(s, Add(v)).slots, Next(s, Add(v)).log, time)
  {
    var x, y, z := OfferVector(10, 1, 1, 0, 1), OfferVector(20, 1, 2, 0, 1), OfferVector(30, 1, 3, 0, 1);
    v := OfferVector(30, 1, 4, 0, 1);
    steps := [Add(x)] + ([Add(y)] + ([Add(z)] + ([Advance(30)] + [])));
    RunOfThree(x, y, z);
    InvFresh(0);
    InvRun(Fresh(0), steps);
    var s := Run(Fresh(0), steps);
    assert z in s.slots by { assert s.slots[2] == z; }
    CleanOfThree(x, y, z, v);
    assert Clean(s.slots, v, s.now)[2] == z;
    time := FillingInFrontDisagrees(s, v);
  }

  lemma ActiveOfThree(x: OfferVector, y: OfferVector, z: OfferVector, time: int)
    ensures FindActive([x, y, z], time) == Later(Later(Later(None, x, time), y, time), z, time)
  {
    assert [x, y, z][..2] == [x, y];
    assert [x, y][..1] == [x];
    assert FindActive([x], time) == Later(None, x, time);
  }

  lemma CleanOfThree(x: OfferVector, y: OfferVector, z: OfferVector, v: OfferVector)
    requires 0 < x.startTime < y.startTime < z.startTime == v.startTime
    ensures Clean([x, y, z] + Empties(7), v, v.startTime) == [EMPTY, y, z] + Empties(7)
    ensures FirstEmpty([EMPTY, y, z] + Empties(7)) == Some(0)
  {
    TrailingEmpties([x, y, z], 7, z.startTime - 1);
    ActiveOfThree(x, y, z, z.startTime - 1);
  }

  // ---- The account and the instruction that adds a vector ----

  datatype AddResult = Added | StartTimeInPast | ZeroValue | DuplicateStartTime | InvalidTimeRange | TooManyVectors | Panicked

  /** The checks before anything is written; None when they all pass. */
  function ValidateInputs(v: OfferVector, currentTime: u64, vs: seq<OfferVector>): Option<AddResult> {
    if v.startTime < currentTime then Some(StartTimeInPast)
    else if v.baseTime == 0 || v.basePrice == 0 || v.priceFixDuration == 0 then Some(ZeroValue)
    else if exists e | e in vs :: e.startTime != 0 && e.startTime == v.startTime then Some(DuplicateStartTime)
    else if exists e | e in vs :: e.startTime != 0 && e.startTime >= v.startTime then Some(InvalidTimeRange)
    else None
  }

  class Offer {
    const vectors: array<OfferVector>

    ghost predicate Valid() {
      vectors.Length == MAX_VECTORS
    }

    constructor ()
      ensures Valid() && fresh(vectors) && vectors.Length == 10
      ensures forall now :: vectors[..] == Fresh(now).slots
    {
      vectors := new OfferVector[MAX_VECTORS](_ => EMPTY);
      new;
      assert forall now :: vectors[..] == Fresh(now).slots;
    }

    /** Empties the slots of superseded vectors; panics, before writing, when the active start is zero. */
    method CleanOldVectors(newVector: OfferVector, currentTime: u64) returns (panicked: bool)
      requires Valid()
      modifies vectors
      ensures panicked <==> CleaningPanics(newVector, currentTime)
      ensures vectors[..] == if panicked then old(vectors[..]) else Clean(old(vectors[..]), newVector, currentTime)
    {
      var before := vectors[..];
      var activeVector := ActiveForCleaning(before, newVector, currentTime);
      FindActiveIsActive(before, currentTime);
      if activeVector.None? {
        return false;
      }
      var activeStart := activeVector.value.startTime;
      if activeStart == 0 {
        return true;
      }
      var previousStart := StartOf(FindActive(before, activeStart - 1));
      for i := 0 to vectors.Length
        invariant forall k | 0 <= k < i :: vectors[k] == CleanSlot(before[k], activeStart, previousStart)
        invariant forall k | i <= k < vectors.Length :: vectors[k] == before[k]
      {
        if Retired(vectors[i], activeStart, previousStart) {
          vectors[i] := EMPTY;
        }
      }
      assert vectors[..] == CleanAround(before, activeStart);
      return false;
    }

    method AddOfferVector(
      startTimeOpt: Option<u64>, baseTime: u64, basePrice: u64, apr: u64, priceFixDuration: u64, currentTime: u64)
      returns (result: AddResult)
      requires Valid()
      modifies vectors
      ensures
        var startTime := startTimeOpt.GetOr(if currentTime >= baseTime then currentTime else baseTime);
        var v := OfferVector(startTime, baseTime, basePrice, apr, priceFixDuration);
        var before := old(vectors[..]);
        var invalid := ValidateInputs(v, currentTime, before);
        if invalid.Some? then result == invalid.value && vectors[..] == before
        else if CleaningPanics(v, currentTime) then result == Panicked && vectors[..] == before
        else
          var s := State(currentTime, before, []);
          && vectors[..] == Next(s, Add(v)).slots
          && result == (if Enabled(s, Add(v)) then Added else TooManyVectors)
    {
      var startTime := startTimeOpt.GetOr(if currentTime >= baseTime then currentTime else baseTime);
      var newVector := OfferVector(startTime, baseTime, basePrice, apr, priceFixDuration);
      var invalid := ValidateInputs(newVector, currentTime, vectors[..]);
      if invalid.Some? {
        return invalid.value;
      }
      ValidIsFresh(newVector, currentTime, vectors[..]);
      var panicked := CleanOldVectors(newVector, currentTime);
      if panicked {
        return Panicked;
      }
      var emptySlot := FirstEmpty(vectors[..]);
      if emptySlot.None? {
        return TooManyVectors;
      }
      vectors[emptySlot.value] := newVector;
      return Added;
    }
  }

  /** Accepted is a vector that starts now or later, after every stored one, and has no zero where one is not allowed. */
  lemma AcceptedIff(v: OfferVector, currentTime: u64, vs: seq<OfferVector>)
    ensures ValidateInputs(v, currentTime, vs).None? <==>
      && currentTime <= v.startTime && v.baseTime > 0 && v.basePrice > 0 && v.priceFixDuration > 0
      && forall e | e in vs && e.startTime > 0 :: e.startTime < v.startTime
  {
  }

  /** Which check refuses: the past first, then zeros, then a start that is stored, then a later stored one. */
  lemma RefusedBecause(v: OfferVector, currentTime: u64, vs: seq<OfferVector>)
    ensures var past := v.startTime < currentTime;
      var zero := v.baseTime == 0 || v.basePrice == 0 || v.priceFixDuration == 0;
      var stored := exists e :: e in vs && e.startTime == v.startTime > 0;
      var later := exists e :: e in vs && e.startTime > v.startTime;
      var refused := ValidateInputs(v, currentTime, vs);
      && (refused == Some(StartTimeInPast) <==> past)
      && (refused == Some(ZeroValue) <==> !past && zero)
      && (refused == Some(DuplicateStartTime) <==> !past && !zero && stored)
      && (refused == Some(InvalidTimeRange) <==> !past && !zero && !stored && later)
  {
  }

  lemma ValidIsFresh(v: OfferVector, currentTime: u64, vs: seq<OfferVector>)
    requires ValidateInputs(v, currentTime, vs).None?
    ensures v.startTime !in Starts(vs)
    ensures v.startTime == 0 ==> CleaningPanics(v, currentTime)
  {
    StartIsStored(vs, v.startTime);
    forall i | 0 <= i < |vs|
      ensures !StoredAt(vs, i, v.startTime)
    {
      assert vs[i] in vs;
    }
  }

  /** A vector the instruction accepts is the active one from its start time on. */
  lemma AcceptedBecomesActive(s: State, v: OfferVector, time: nat)
    requires s.now <= U64_MAX && ValidateInputs(v, s.now, s.slots).None?
    requires Enabled(s, Add(v)) && time >= v.startTime
    ensures FindActive(Next(s, Add(v)).slots, time) == Some(v)
  {
    var slots := Next(s, Add(v)).slots;
    forall e | e in slots && Eligible(e, time) && e != v
      ensures e.startTime < v.startTime
    {
      var i :| 0 <= i < |slots| && slots[i] == e;
      if Clean(s.slots, v, s.now)[i] != s.slots[i] {
        CleanTouchesOnlyOlder(s.slots, v, s.now, i);
      }
      assert s.slots[i] in s.slots;
    }
    assert slots[FirstEmpty(Clean(s.slots, v, s.now)).value] == v;
    ActiveUnique(slots, time, v);
  }
}
