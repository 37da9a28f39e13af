/**
  Crash-loop detection across boots (`health.rs`): a state byte, a saturating counter and the last
  seen VM generation in NVRAM, assessed at the start of every boot. Every write is best effort and may
  be refused on its own, and every read may fail on its own.
*/
module BootHealth {
  import opened Orders

  const COUNTER_MAX: nat := 255
  const MAX_CRASH_THRESHOLD: nat := 10

  datatype BootState = Fresh | Booting | BootedOk | CrashLoop

  type Generation = seq<int>

  /** What NVRAM holds; an absent state reads as fresh and an absent counter as zero. */
  datatype Health = Health(state: BootState, counter: nat, generation: Option<Generation>)

  const BLANK := Health(Fresh, 0, None)

  /** Which variables the store lets a boot write. */
  datatype Writes = Writes(state: bool, counter: bool, generation: bool)

  const ALL := Writes(true, true, true)
  const NONE := Writes(false, false, false)

  /** What is stored when `after` is written over `before`. */
  function Stored(before: Health, after: Health, w: Writes): Health {
    Health(
      if w.state then after.state else before.state,
      if w.counter then after.counter else before.counter,
      if w.generation then after.generation else before.generation)
  }

  /** Which variables a boot can read. */
  datatype Reads = Reads(state: bool, counter: bool, generation: bool)

  const READABLE := Reads(true, true, true)

  /** A variable that cannot be read looks absent. */
  function Seen(h: Health, r: Reads): Health {
    Health(
      if r.state then h.state else Fresh,
      if r.counter then h.counter else 0,
      if r.generation then h.generation else None)
  }

  predicate IsNewGeneration(h: Health, current: Option<Generation>) {
    current.Some? && h.generation != current
  }

  /** A new generation starts over and leaves the state fresh; otherwise an unfinished boot counts. */
  function Assessed(h: Health, current: Option<Generation>): Health {
    if IsNewGeneration(h, current) then Health(Fresh, 0, current)
    else
      var counter := match h.state
        case Booting => SaturatingIncrement(h.counter, COUNTER_MAX)
        case BootedOk => 0
        case Fresh => 0
        case CrashLoop => h.counter;
      Health(Booting, counter, h.generation)
  }

  /** What the store lets the assessment of a boot do. */
  datatype Access = Access(canRead: Reads, canWrite: Writes)

  /** The generation is only written when it is new. */
  function AfterAssessment(h: Health, current: Option<Generation>, a: Access): Health {
    var seen := Seen(h, a.canRead);
    var writesGeneration := IsNewGeneration(seen, current) && a.canWrite.generation;
    Stored(h, Assessed(seen, current), a.canWrite.(generation := writesGeneration))
  }

  /** A refused state write ends the marking before the counter is written. */
  function AfterMark(h: Health, w: Writes): Health {
    if w.state then Stored(h, Health(BootedOk, 0, h.generation), w) else h
  }

  /** `is_crash_loop` reads the counter that is stored, not the one that was computed. */
  predicate IsCrashLoop(h: Health, readable: bool, threshold: nat) {
    (if readable then h.counter else 0) >= threshold
  }

  /** The threshold of the policy is capped. */
  function Threshold(policy: nat): nat { Min(policy, MAX_CRASH_THRESHOLD) }

  class HealthStore {
    var nvram: Health

    constructor ()
      ensures nvram == BLANK
    {
      nvram := BLANK;
    }

    method SetState(state: BootState, accepted: bool) returns (ok: bool)
      modifies this
      ensures ok == accepted && nvram == if accepted then old(nvram).(state := state) else old(nvram)
    {
      if accepted {
        nvram := nvram.(state := state);
      }
      ok := accepted;
    }

    method SetCounter(counter: nat, accepted: bool) returns (ok: bool)
      modifies this
      ensures ok == accepted && nvram == if accepted then old(nvram).(counter := counter) else old(nvram)
    {
      if accepted {
        nvram := nvram.(counter := counter);
      }
      ok := accepted;
    }

    /** The count is returned whether or not it could be stored. */
    method AssessBootHealth(current: Option<Generation>, a: Access) returns (counter: nat)
      modifies this
      ensures nvram == AfterAssessment(old(nvram), current, a)
      ensures counter == Assessed(Seen(old(nvram), a.canRead), current).counter
      ensures counter <= old(nvram).counter + 1 && (!old(nvram).state.Booting? ==> counter <= old(nvram).counter)
    {
      var ok;
      var seen := Seen(nvram, a.canRead);
      if current.Some? && seen.generation != current {
        ok := SetState(Fresh, a.canWrite.state);
        ok := SetCounter(0, a.canWrite.counter);
        if a.canWrite.generation {
          nvram := nvram.(generation := current);
        }
        return 0;
      }
      counter := seen.counter;
      match seen.state {
        case Booting => counter := SaturatingIncrement(counter, COUNTER_MAX);
        case BootedOk => counter := 0;
        case Fresh => counter := 0;
        case CrashLoop =>
      }
      ok := SetCounter(counter, a.canWrite.counter);
      ok := SetState(Booting, a.canWrite.state);
    }

    method MarkBootSuccess(w: Writes) returns (ok: bool)
      modifies this
      ensures nvram == AfterMark(old(nvram), w)
      ensures ok <==> w.state && w.counter
      ensures ok ==> nvram.state.BootedOk? && nvram.counter == 0
      ensures nvram.state != old(nvram).state ==> nvram.state.BootedOk?
    {
      ok := SetState(BootedOk, w.state);
      if !ok {
        return;
      }
      ok := SetCounter(0, w.counter);
    }
  }

  // ---------------------------------------------------------------------------
  // Histories
  // ---------------------------------------------------------------------------

  /** One boot: its generation, whether it ended well, and what its two steps could do. */
  datatype Boot = Boot(generation: Option<Generation>, ok: bool, assess: Access, mark: Writes) {
    /** The boot could write everything or nothing and read what it needed, and did or did not mark its success. */
    predicate Uniform() {
      (assess == FULL && mark in {ALL, NONE}) || (assess.canWrite == NONE && mark == NONE)
    }

    predicate Succeeded() { ok && mark == ALL }
  }

  const FULL := Access(READABLE, ALL)

  function AfterBoot(h: Health, b: Boot): Health {
    var assessed := AfterAssessment(h, b.generation, b.assess);
    if b.ok then AfterMark(assessed, b.mark) else assessed
  }

  /** NVRAM after a history of boots. */
  function After(history: seq<Boot>): Health {
    if |history| == 0 then BLANK else AfterBoot(After(history[..|history| - 1]), history[|history| - 1])
  }

  ghost predicate AllUniform(history: seq<Boot>) {
    forall i | 0 <= i < |history| :: history[i].Uniform()
  }

  /** The last generation any boot could store. */
  function LastGeneration(history: seq<Boot>): Option<Generation> {
    if |history| == 0 then None
    else
      var last := history[|history| - 1];
      if last.assess == FULL && last.generation.Some? then last.generation
      else LastGeneration(history[..|history| - 1])
  }

  /** The boot after `history` runs in another generation than the last stored one. */
  predicate StartsGeneration(history: seq<Boot>, current: Option<Generation>) {
    current.Some? && LastGeneration(history) != current
  }

  /**
    How many boots in a row, up to the last one, ended without success in a known generation. Boots
    that could not write are passed over.
  */
  function Crashes(history: seq<Boot>): nat {
    if |history| == 0 then 0
    else
      var init, last := history[..|history| - 1], history[|history| - 1];
      if last.assess != FULL then Crashes(init)
      else if last.Succeeded() || StartsGeneration(init, last.generation) then 0
      else 1 + Crashes(init)
  }

  /** What the store holds, said in terms of the history alone. */
  lemma {:induction false} StoreTellsHistory(history: seq<Boot>)
    requires AllUniform(history)
    ensures var h := After(history);
      && h.generation == LastGeneration(history)
      && !h.state.CrashLoop?
      && (h.state.Booting? <==> Crashes(history) > 0)
      && h.counter == Min(COUNTER_MAX, SaturatingSub(Crashes(history), 1))
  {
    if |history| == 0 {
    } else {
      var init, last := history[..|history| - 1], history[|history| - 1];
      StoreTellsHistory(init);
      assert last.Uniform();
    }
  }

  /** The count a boot should come to. */
  function RightCount(history: seq<Boot>, current: Option<Generation>): nat {
    if StartsGeneration(history, current) then 0 else Min(COUNTER_MAX, Crashes(history))
  }

  /**
    The assessment of a boot counts exactly the crashes before it, up to saturation, if and only if
    there are none to count or it can read the state, the generation it compares with, and any count
    that is stored.
  */
  lemma CounterIsCrashesIff(history: seq<Boot>, current: Option<Generation>, r: Reads)
    requires AllUniform(history)
    ensures Assessed(Seen(After(history), r), current).counter == RightCount(history, current) <==>
      || RightCount(history, current) == 0
      || (r.state && (r.generation || current.None?) && (r.counter || Crashes(history) == 1))
  {
    StoreTellsHistory(history);
  }

  /** A failed read of the state clears a count of any height. */
  lemma FailedReadClears(h: Health, current: Option<Generation>, r: Reads)
    requires !r.state
    ensures AfterAssessment(h, current, Access(r, ALL)).counter == 0
  {
  }

  /**
    A boot that can read and write reports a crash loop exactly after that many crashes in a row in its
    own generation. One that cannot write reads the count of the boot before it: it needs one crash
    more, and a new generation does not clear it. One that cannot read the stored count reports none.
  */
  lemma CrashLoopIff(history: seq<Boot>, current: Option<Generation>, writable: bool, readable: bool, policy: nat)
    requires AllUniform(history)
    ensures var stored := AfterAssessment(After(history), current, Access(READABLE, if writable then ALL else NONE));
      IsCrashLoop(stored, readable, Threshold(policy)) <==>
      || Threshold(policy) == 0
      || (readable && if writable then RightCount(history, current) >= Threshold(policy)
                      else Crashes(history) > Threshold(policy))
  {
    StoreTellsHistory(history);
  }

  /** One crash and a threshold of one: reported if the next boot can write, missed if it cannot. */
  lemma ReadOnlyBootMissesCrash()
    ensures var history := [Boot(None, false, FULL, NONE)];
      && Crashes(history) == Threshold(1)
      && IsCrashLoop(AfterAssessment(After(history), None, FULL), true, Threshold(1))
      && !IsCrashLoop(AfterAssessment(After(history), None, Access(READABLE, NONE)), true, Threshold(1))
  {
    var history := [Boot(None, false, FULL, NONE)];
    assert history[..0] == [];
  }

  // ---------------------------------------------------------------------------
  // Whatever is refused or fails
  // ---------------------------------------------------------------------------

  /** `h` as it can be at most `n` boots after a success. */
  predicate Within(h: Health, n: nat) {
    !h.state.CrashLoop? && (h.state.Booting? || h.counter > 0 ==> h.counter < n)
  }

  lemma WithinNext(h: Health, b: Boot, n: nat)
    requires Within(h, n)
    ensures Within(AfterBoot(h, b), n + 1)
  {
  }

  lemma {:induction false} WithinAfter(history: seq<Boot>, later: seq<Boot>)
    requires Within(After(history), 0)
    ensures Within(After(history + later), |later|)
    decreases |later|
  {
    if |later| == 0 {
      assert history + later == history;
    } else {
      var init, last := later[..|later| - 1], later[|later| - 1];
      assert (history + later)[..|history + later| - 1] == history + init;
      WithinAfter(history, init);
      WithinNext(After(history + init), last, |init|);
    }
  }

  lemma {:induction false} NeverCrashLoopState(history: seq<Boot>)
    ensures !After(history).state.CrashLoop?
  {
    if |history| == 0 {
    } else {
      NeverCrashLoopState(history[..|history| - 1]);
    }
  }

  lemma SuccessIsWithin(history: seq<Boot>, success: Boot)
    requires success.Succeeded()
    ensures Within(After(history + [success]), 0)
  {
    assert (history + [success])[..|history|] == history;
  }

  lemma AlarmNeedsBoots(h: Health, n: nat, current: Option<Generation>, a: Access, threshold: nat)
    requires Within(h, n) && threshold > 0 && AfterAssessment(h, current, a).counter >= threshold
    ensures n >= threshold
  {
  }

  /**
    After a success that was stored, no boot reports a crash loop before as many boots as the threshold
    have gone by, whichever writes are refused and whichever reads fail in them.
  */
  lemma {:induction false} NoEarlyAlarm(history: seq<Boot>, success: Boot, later: seq<Boot>,
                                        current: Option<Generation>, a: Access, readable: bool, policy: nat)
    requires success.Succeeded() && Threshold(policy) > 0
    requires IsCrashLoop(AfterAssessment(After(history + [success] + later), current, a), readable, Threshold(policy))
    ensures |later| >= Threshold(policy)
  {
    SuccessIsWithin(history, success);
    WithinAfter(history + [success], later);
    AlarmNeedsBoots(After(history + [success] + later), |later|, current, a, Threshold(policy));
  }

  /** Without a stored success it can come at once: a counter that could not be cleared stays. */
  lemma StaleCounterMisleads()
    ensures var history := [Boot(None, false, FULL, NONE), Boot(None, true, FULL, ALL.(counter := false))];
      && After(history).state.BootedOk?
      && IsCrashLoop(AfterAssessment(After(history), None, Access(READABLE, NONE)), true, Threshold(1))
  {
    var crash, marked := Boot(None, false, FULL, NONE), Boot(None, true, FULL, ALL.(counter := false));
    var history := [crash, marked];
    assert history[..1] == [crash] && [crash][..0] == [];
  }
}
