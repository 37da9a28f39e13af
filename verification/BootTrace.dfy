/**
  The tails of the UKI, Linux and ISO boots (`boot.rs`) as traces of trust-log records and image
  starts. Digests are opaque numbers; what shim, the native loader and the firmware do is input. A
  firmware load writes no digest to the log; the trace notes it so that starts can be compared.
*/
module BootTrace {
  import opened Orders

  datatype Mode = Auto | Always | Never

  datatype Posture = Disabled | ActiveWithShim | ActiveDirect

  datatype Route = Native | Firmware

  datatype Kind = Uki | Linux | Iso

  datatype Via = SbOff | SbDirect | ShimMok | ShimRejected

  datatype Event =
    | ImageVerified(digest: nat, via: Via)
    | LoadFailed
    | LoadedNative(digest: nat, via: Via)
    | NativeFallback
    | LoadImageUsed(mode: Mode)
    | LoadedFirmware(digest: nat)
    | Started(route: Route, mode: Mode, digest: nat)   // of the bytes that run

  datatype Error = SecurityViolation | InvalidParameter | LoadError | InitrdError | FirmwareError

  datatype Result<+T> = Ok(value: T) | Err(error: Error)

  /** Everything outside the boot code that one attempt meets. */
  datatype Attempt = Attempt(
    kind: Kind,
    mode: Mode,
    posture: Posture,         // as detected at startup
    shimPresent: bool,        // whether shim is still there
    shimAccepts: bool,
    digest: nat,              // of the bytes when they are verified
    initrdReadable: bool,     // consulted for Linux only
    hasOptions: bool,
    optionsEncodable: bool,
    nativeLoads: bool,
    loadDigest: nat,          // of the bytes when the native loader hashes them
    firmwareDigest: nat,      // of the bytes when the firmware is given them
    firmwareLoads: bool,
    firmwareTakesOptions: bool,
    firmwareStarts: bool)

  function DecideLoadRoute(mode: Mode, posture: Posture): Route {
    match mode
    case Never => Firmware
    case Always => Native
    case Auto => if posture.ActiveDirect? then Firmware else Native
  }

  /** The posture probed again: shim may have gone. */
  function CurrentPosture(a: Attempt): Posture {
    if a.posture.ActiveWithShim? && !a.shimPresent then ActiveDirect else a.posture
  }

  function VerifiedVia(a: Attempt): Via {
    match CurrentPosture(a)
    case Disabled => SbOff
    case ActiveDirect => SbDirect
    case ActiveWithShim => if a.shimAccepts then ShimMok else ShimRejected
  }

  // ---------------------------------------------------------------------------
  // What an attempt leaves behind
  // ---------------------------------------------------------------------------

  datatype Tail = Tail(events: seq<Event>, result: Result<()>)

  /** After a start the native path reports success whatever the image returned. */
  function NativeTail(a: Attempt): Tail {
    if a.hasOptions && !a.optionsEncodable then Tail([], Err(InvalidParameter))
    else if !a.nativeLoads then Tail([LoadFailed], Err(LoadError))
    else if a.loadDigest != a.digest then Tail([LoadFailed], Err(SecurityViolation))
    else Tail([LoadedNative(a.loadDigest, VerifiedVia(a)), Started(Native, a.mode, a.loadDigest)], Ok(()))
  }

  function FirmwareTail(a: Attempt): Tail {
    if !a.firmwareLoads || (a.hasOptions && !a.firmwareTakesOptions) then
      Tail([LoadImageUsed(a.mode)], Err(FirmwareError))
    else
      Tail([LoadImageUsed(a.mode), LoadedFirmware(a.firmwareDigest), Started(Firmware, a.mode, a.firmwareDigest)],
           if a.firmwareStarts then Ok(()) else Err(FirmwareError))
  }

  /** A failed native load falls back to the firmware, except for a UKI. */
  function RoutedTail(a: Attempt): Tail {
    if DecideLoadRoute(a.mode, CurrentPosture(a)).Firmware? then FirmwareTail(a)
    else if NativeTail(a).result.Ok? || a.kind.Uki? then NativeTail(a)
    else Tail(NativeTail(a).events + [NativeFallback] + FirmwareTail(a).events, FirmwareTail(a).result)
  }

  function AttemptTail(a: Attempt): Tail {
    var verified := [ImageVerified(a.digest, VerifiedVia(a))];
    if VerifiedVia(a).ShimRejected? then Tail(verified, Err(SecurityViolation))
    else if a.kind.Linux? && !a.initrdReadable then Tail(verified, Err(InitrdError))
    else Tail(verified + RoutedTail(a).events, RoutedTail(a).result)
  }

  // ---------------------------------------------------------------------------
  // The boot code
  // ---------------------------------------------------------------------------

  class Booter {
    var log: seq<Event>

    constructor ()
      ensures log == []
    {
      log := [];
    }

    /** One record; only a shim that is there and says no refuses. */
    method VerifyKernelBytes(a: Attempt) returns (accepted: bool)
      modifies this
      ensures !accepted <==> a.posture.ActiveWithShim? && a.shimPresent && !a.shimAccepts
      ensures log == old(log) + [ImageVerified(a.digest, VerifiedVia(a))] && accepted == !VerifiedVia(a).ShimRejected?
    {
      var posture := a.posture;
      if posture.ActiveWithShim? && !a.shimPresent {
        posture := ActiveDirect;
      }
      var via;
      match posture {
        case Disabled => via, accepted := SbOff, true;
        case ActiveDirect => via, accepted := SbDirect, true;
        case ActiveWithShim =>
          accepted := a.shimAccepts;
          via := if accepted then ShimMok else ShimRejected;
      }
      log := log + [ImageVerified(a.digest, via)];
    }

    method NativeLoadAndStart(a: Attempt, via: Via) returns (r: Result<()>)
      requires via == VerifiedVia(a)
      modifies this
      ensures log == old(log) + NativeTail(a).events && r == NativeTail(a).result
      ensures r == Err(InvalidParameter) ==> log == old(log)
      ensures r.Err? && r != Err(InvalidParameter) ==> log == old(log) + [LoadFailed]
      ensures r.Ok? ==> |log| > |old(log)| && log[|log| - 1] == Started(Native, a.mode, a.digest)
    {
      if a.hasOptions && !a.optionsEncodable {
        return Err(InvalidParameter);
      }
      if !a.nativeLoads {
        log := log + [LoadFailed];
        return Err(LoadError);
      }
      if a.loadDigest != a.digest {
        log := log + [LoadFailed];
        return Err(SecurityViolation);
      }
      log := log + [LoadedNative(a.loadDigest, via)];
      log := log + [Started(Native, a.mode, a.loadDigest)];
      r := Ok(());
    }

    method FirmwareLoadAndStart(a: Attempt) returns (r: Result<()>)
      modifies this
      ensures log == old(log) + FirmwareTail(a).events && r == FirmwareTail(a).result
      ensures r.Ok? ==> |log| > |old(log)| && log[|log| - 1] == Started(Firmware, a.mode, a.firmwareDigest)
    {
      log := log + [LoadImageUsed(a.mode)];
      if !a.firmwareLoads {
        return Err(FirmwareError);
      }
      if a.hasOptions && !a.firmwareTakesOptions {
        return Err(FirmwareError);
      }
      log := log + [LoadedFirmware(a.firmwareDigest)];
      log := log + [Started(Firmware, a.mode, a.firmwareDigest)];
      r := if a.firmwareStarts then Ok(()) else Err(FirmwareError);
    }

    /** `boot_uki`, `boot_linux` and `iso_boot_resolved` from the verification on. */
    method Boot(a: Attempt) returns (r: Result<()>)
      modifies this
      ensures log == old(log) + AttemptTail(a).events && r == AttemptTail(a).result
      ensures a.posture.ActiveWithShim? && a.shimPresent && !a.shimAccepts ==>
        r == Err(SecurityViolation) && log == old(log) + [ImageVerified(a.digest, ShimRejected)]
      ensures r.Ok? ==>
        && |log| > |old(log)| && log[|log| - 1].Started?
        && log[|log| - 1].digest == if log[|log| - 1].route.Native? then a.digest else a.firmwareDigest
    {
      var accepted := VerifyKernelBytes(a);
      if !accepted {
        return Err(SecurityViolation);
      }
      if a.kind.Linux? && !a.initrdReadable {
        return Err(InitrdError);
      }
      match DecideLoadRoute(a.mode, CurrentPosture(a))
      case Firmware =>
        r := FirmwareLoadAndStart(a);
      case Native =>
        r := NativeLoadAndStart(a, VerifiedVia(a));
        if r.Err? && !a.kind.Uki? {
          log := log + [NativeFallback];
          r := FirmwareLoadAndStart(a);
        }
    }
  }

  // ---------------------------------------------------------------------------
  // The safety monitor
  // ---------------------------------------------------------------------------

  /** What the log so far allows. */
  datatype Monitor =
    | Idle                                          // nothing may start
    | Accepted(digest: nat, via: Via)               // these bytes were accepted
    | Loaded(route: Route, bytes: nat, digest: nat, via: Via)   // then `bytes` were loaded, once
    | Broken

  /**
    An image may start only after bytes were accepted and then an image was loaded, once; what starts
    is what was loaded. A native load must carry the digest and the token of the acceptance, and under
    `Auto` must not start bytes that nobody has checked.
  */
  function Next(m: Monitor, e: Event): Monitor {
    match e
    case ImageVerified(digest, via) =>
      if m.Broken? then Broken else if via.ShimRejected? then Idle else Accepted(digest, via)
    case LoadedNative(digest, via) =>
      if m == Accepted(digest, via) then Loaded(Native, digest, digest, via) else Broken
    case LoadedFirmware(bytes) => if m.Accepted? then Loaded(Firmware, bytes, m.digest, m.via) else Broken
    case Started(route, mode, bytes) =>
      if m.Loaded? && m.route == route && m.bytes == bytes && !(route.Native? && mode.Auto? && m.via.SbDirect?)
      then Idle else Broken
    case _ => m
  }

  function Watch(m: Monitor, log: seq<Event>): Monitor
    decreases |log|
  {
    if |log| == 0 then m else Watch(Next(m, log[0]), log[1..])
  }

  lemma {:induction false} WatchConcat(m: Monitor, a: seq<Event>, b: seq<Event>)
    ensures Watch(m, a + b) == Watch(Watch(m, a), b)
    decreases |a|
  {
    if |a| == 0 {
      assert a + b == b;
    } else {
      assert (a + b)[1..] == a[1..] + b;
      WatchConcat(Next(m, a[0]), a[1..], b);
    }
  }

  lemma OneEvent(m: Monitor, e: Event)
    ensures Watch(m, [e]) == Next(m, e)
  {
    assert [e][1..] == [];
  }

  lemma TwoEvents(m: Monitor, d: Event, e: Event)
    ensures Watch(m, [d, e]) == Next(Next(m, d), e)
  {
    assert [d, e][1..] == [e];
    OneEvent(Next(m, d), e);
  }

  lemma NativeIsSafe(a: Attempt)
    requires !VerifiedVia(a).ShimRejected? && DecideLoadRoute(a.mode, CurrentPosture(a)).Native?
    ensures Watch(Accepted(a.digest, VerifiedVia(a)), NativeTail(a).events)
      == if NativeTail(a).result.Ok? then Idle else Accepted(a.digest, VerifiedVia(a))
  {
    var m := Accepted(a.digest, VerifiedVia(a));
    OneEvent(m, LoadFailed);
    TwoEvents(m, LoadedNative(a.loadDigest, VerifiedVia(a)), Started(Native, a.mode, a.loadDigest));
  }

  lemma FirmwareIsSafe(a: Attempt, m: Monitor)
    requires m.Accepted?
    ensures Watch(m, FirmwareTail(a).events) in {m, Idle}
  {
    OneEvent(m, LoadImageUsed(a.mode));
    var load, loaded := LoadImageUsed(a.mode), LoadedFirmware(a.firmwareDigest);
    var started := Started(Firmware, a.mode, a.firmwareDigest);
    WatchConcat(m, [load], [loaded, started]);
    TwoEvents(m, loaded, started);
    assert [load] + [loaded, started] == [load, loaded, started];
  }

  lemma RoutedIsSafe(a: Attempt)
    requires !VerifiedVia(a).ShimRejected?
    ensures var m := Accepted(a.digest, VerifiedVia(a)); Watch(m, RoutedTail(a).events) in {m, Idle}
  {
    var m := Accepted(a.digest, VerifiedVia(a));
    FirmwareIsSafe(a, m);
    if DecideLoadRoute(a.mode, CurrentPosture(a)).Native? {
      NativeIsSafe(a);
      if NativeTail(a).result.Err? && !a.kind.Uki? {
        WatchConcat(m, NativeTail(a).events, [NativeFallback]);
        OneEvent(m, NativeFallback);
        WatchConcat(m, NativeTail(a).events + [NativeFallback], FirmwareTail(a).events);
      }
    }
  }

  /** Whatever happened before, an attempt never breaks the monitor. */
  lemma AttemptIsSafe(m: Monitor, a: Attempt)
    requires !m.Broken?
    ensures !Watch(m, AttemptTail(a).events).Broken?
  {
    var verified := ImageVerified(a.digest, VerifiedVia(a));
    OneEvent(m, verified);
    if !VerifiedVia(a).ShimRejected? {
      RoutedIsSafe(a);
      WatchConcat(m, [verified], RoutedTail(a).events);
    }
  }

  /** The log of attempts one after another. */
  function RunLog(attempts: seq<Attempt>): seq<Event> {
    if |attempts| == 0 then []
    else RunLog(attempts[..|attempts| - 1]) + AttemptTail(attempts[|attempts| - 1]).events
  }

  lemma {:induction false} EveryRunIsSafe(attempts: seq<Attempt>)
    ensures !Watch(Idle, RunLog(attempts)).Broken?
  {
    if |attempts| == 0 {
    } else {
      var init, last := attempts[..|attempts| - 1], attempts[|attempts| - 1];
      EveryRunIsSafe(init);
      WatchConcat(Idle, RunLog(init), AttemptTail(last).events);
      AttemptIsSafe(Watch(Idle, RunLog(init)), last);
    }
  }

  // ---------------------------------------------------------------------------
  // What a safe log says about each start
  // ---------------------------------------------------------------------------

  /** Nothing was verified or started after position `v`. */
  ghost predicate Quiet(log: seq<Event>, v: nat) {
    forall i | v < i < |log| :: !log[i].Started? && !log[i].ImageVerified?
  }

  ghost predicate NotedAfter(log: seq<Event>, v: nat, e: Event) {
    exists i :: v < i < |log| && log[i] == e
  }

  /** After the acceptance at `v`, `bytes` were loaded; natively only the accepted ones. */
  ghost predicate LoadedAfter(log: seq<Event>, v: nat, route: Route, bytes: nat)
    requires v < |log| && log[v].ImageVerified?
  {
    if route.Native? then bytes == log[v].digest && NotedAfter(log, v, LoadedNative(bytes, log[v].via))
    else NotedAfter(log, v, LoadedFirmware(bytes))
  }

  /** Position `v` holds the acceptance under which the image at `s` was started. */
  ghost predicate Covers(log: seq<Event>, v: nat, s: nat)
    requires s < |log| && log[s].Started?
  {
    && v < s && log[v].ImageVerified? && !log[v].via.ShimRejected? && Quiet(log[..s], v)
    && LoadedAfter(log[..s], v, log[s].route, log[s].digest)
    && !(log[s].route.Native? && log[s].mode.Auto? && log[v].via.SbDirect?)
  }

  /** The monitor's state is what the end of the log says. */
  ghost predicate Explains(log: seq<Event>, m: Monitor, v: nat) {
    m.Accepted? || m.Loaded? ==>
      && v < |log| && log[v] == ImageVerified(m.digest, m.via) && !m.via.ShimRejected? && Quiet(log, v)
      && (m.Loaded? ==> LoadedAfter(log, v, m.route, m.bytes))
  }

  lemma StillNoted(log: seq<Event>, v: nat, e: Event, next: Event)
    ensures NotedAfter(log, v, e) ==> NotedAfter(log + [next], v, e)
  {
    if i :| v < i < |log| && log[i] == e {
      assert (log + [next])[i] == e;
    }
  }

  lemma ExplainsNext(log: seq<Event>, m: Monitor, v: nat, e: Event)
    requires Explains(log, m, v) && !e.ImageVerified? && !Next(m, e).Broken?
    ensures Explains(log + [e], Next(m, e), v)
  {
    var longer := log + [e];
    assert longer[|log|] == e && forall i | 0 <= i < |log| :: longer[i] == log[i];
    if m.Loaded? {
      StillNoted(log, v, LoadedNative(m.bytes, m.via), e);
      StillNoted(log, v, LoadedFirmware(m.bytes), e);
    } else if m.Accepted? {
      assert v < |log| < |longer|;
    }
  }

  lemma {:induction false} MonitorExplains(log: seq<Event>) returns (v: nat)
    requires !Watch(Idle, log).Broken?
    ensures Explains(log, Watch(Idle, log), v)
  {
    v := 0;
    if |log| == 0 {
    } else {
      var init, e := log[..|log| - 1], log[|log| - 1];
      assert log == init + [e];
      WatchConcat(Idle, init, [e]);
      OneEvent(Watch(Idle, init), e);
      v := MonitorExplains(init);
      if e.ImageVerified? {
        v := |log| - 1;
      } else {
        ExplainsNext(init, Watch(Idle, init), v, e);
      }
    }
  }

  lemma {:induction false} BrokenForever(log: seq<Event>)
    ensures Watch(Broken, log) == Broken
    decreases |log|
  {
    if |log| == 0 {
    } else {
      BrokenForever(log[1..]);
    }
  }

  /** Every start has the acceptance it needs, and no two starts share one. */
  lemma StartIsCovered(log: seq<Event>, s: nat) returns (v: nat)
    requires !Watch(Idle, log).Broken? && s < |log| && log[s].Started?
    ensures Covers(log, v, s)
  {
    var before := log[..s];
    assert log == before + log[s..] && log[s..][0] == log[s];
    WatchConcat(Idle, before, log[s..]);
    BrokenForever(log[s..]);
    BrokenForever(log[s..][1..]);
    v := MonitorExplains(before);
    assert forall i | 0 <= i < s :: before[i] == log[i];
  }

  // ---------------------------------------------------------------------------
  // The bytes that run
  // ---------------------------------------------------------------------------

  lemma RoutedShape(a: Attempt, i: nat)
    requires i < |RoutedTail(a).events|
    ensures var e := RoutedTail(a).events[i];
      && !e.ImageVerified? && (e.Started? ==> i == |RoutedTail(a).events| - 1)
      && (e.Started? ==> e.digest == if e.route.Native? then a.digest else a.firmwareDigest)
  {
    var native, firmware := NativeTail(a).events, FirmwareTail(a).events;
    if |native| < i && RoutedTail(a).events != firmware && RoutedTail(a).events != native {
      assert RoutedTail(a).events[i] == firmware[i - |native| - 1];
    }
  }

  /** An attempt verifies first and only first; if it starts an image it does so last. */
  lemma TailShape(a: Attempt, i: nat)
    requires i < |AttemptTail(a).events|
    ensures var e := AttemptTail(a).events[i];
      && (if i == 0 then e == ImageVerified(a.digest, VerifiedVia(a)) else !e.ImageVerified?)
      && (e.Started? ==> i == |AttemptTail(a).events| - 1)
      && (e.Started? ==> e.digest == if e.route.Native? then a.digest else a.firmwareDigest)
  {
    var verified := [ImageVerified(a.digest, VerifiedVia(a))];
    if i > 0 {
      assert AttemptTail(a).events[i] == RoutedTail(a).events[i - 1];
      RoutedShape(a, i - 1);
    }
  }

  ghost predicate IsPart(log: seq<Event>, from: nat, a: Attempt) {
    var n := |AttemptTail(a).events|;
    from + n <= |log| && log[from..from + n] == AttemptTail(a).events
  }

  lemma PartOfLonger(log: seq<Event>, more: seq<Event>, from: nat, a: Attempt)
    requires IsPart(log, from, a)
    ensures IsPart(log + more, from, a)
  {
    var n := |AttemptTail(a).events|;
    assert (log + more)[from..from + n] == log[from..from + n];
  }

  lemma LastPart(log: seq<Event>, a: Attempt)
    ensures IsPart(log + AttemptTail(a).events, |log|, a)
  {
  }

  /** The attempt in whose part of the log position `s` lies. */
  lemma {:induction false} AttemptOf(attempts: seq<Attempt>, s: nat) returns (k: nat)
    requires s < |RunLog(attempts)|
    ensures k < |attempts| && IsPart(RunLog(attempts), |RunLog(attempts[..k])|, attempts[k])
    ensures var from := |RunLog(attempts[..k])|; from <= s < from + |AttemptTail(attempts[k]).events|
    decreases |attempts|
  {
    var init, last := attempts[..|attempts| - 1], attempts[|attempts| - 1];
    if s < |RunLog(init)| {
      k := AttemptOf(init, s);
      assert init[..k] == attempts[..k];
      PartOfLonger(RunLog(init), AttemptTail(last).events, |RunLog(init[..k])|, init[k]);
    } else {
      k := |attempts| - 1;
      LastPart(RunLog(init), last);
    }
  }

  /** Event `i` of an attempt whose part of the log begins at `from`. */
  lemma ShapeAt(log: seq<Event>, from: nat, a: Attempt, i: nat)
    requires IsPart(log, from, a) && from <= i < from + |AttemptTail(a).events|
    ensures if i == from then log[i] == ImageVerified(a.digest, VerifiedVia(a)) else !log[i].ImageVerified?
    ensures log[i].Started? ==>
      && i == from + |AttemptTail(a).events| - 1
      && log[i].digest == if log[i].route.Native? then a.digest else a.firmwareDigest
  {
    TailShape(a, i - from);
    assert log[i] == log[from..from + |AttemptTail(a).events|][i - from];
  }

  lemma LastAcceptance(log: seq<Event>, v: nat, w: nat, s: nat)
    requires w < s <= |log| && Quiet(log[..s], v) && log[w].ImageVerified?
    ensures w <= v
  {
    assert log[..s][w] == log[w];
  }

  /** The acceptance of a start is the first event of its own attempt. */
  lemma OwnAcceptance(log: seq<Event>, from: nat, a: Attempt, s: nat, v: nat)
    requires IsPart(log, from, a) && from <= s < from + |AttemptTail(a).events|
    requires log[s].Started? && Covers(log, v, s)
    ensures v == from
  {
    ShapeAt(log, from, a, from);
    ShapeAt(log, from, a, s);
    forall i | from < i < s
      ensures !log[i].Started? && !log[i].ImageVerified?
    {
      ShapeAt(log, from, a, i);
    }
    LastAcceptance(log, v, from, s);
    LastAcceptance(log, from, v, s);
  }

  /**
    In every run, every start is covered by the acceptance its own attempt began with. A native start
    runs the accepted bytes; a firmware start runs them exactly when the buffer did not change.
  */
  lemma EveryStartIsCovered(attempts: seq<Attempt>, s: nat) returns (k: nat, v: nat)
    requires s < |RunLog(attempts)| && RunLog(attempts)[s].Started?
    ensures k < |attempts| && v == |RunLog(attempts[..k])| && Covers(RunLog(attempts), v, s)
    ensures RunLog(attempts)[v].digest == attempts[k].digest
    ensures var started := RunLog(attempts)[s];
      started.digest == attempts[k].digest <==>
        started.route.Native? || attempts[k].firmwareDigest == attempts[k].digest
  {
    EveryRunIsSafe(attempts);
    v := StartIsCovered(RunLog(attempts), s);
    k := AttemptOf(attempts, s);
    OwnAcceptance(RunLog(attempts), |RunLog(attempts[..k])|, attempts[k], s, v);
    ShapeAt(RunLog(attempts), v, attempts[k], v);
    ShapeAt(RunLog(attempts), v, attempts[k], s);
  }

  // ---------------------------------------------------------------------------
  // Which route starts
  // ---------------------------------------------------------------------------

  /** The image is accepted and there is nothing left to read. */
  predicate Reaches(a: Attempt) {
    !(a.posture.ActiveWithShim? && a.shimPresent && !a.shimAccepts) && (a.kind.Linux? ==> a.initrdReadable)
  }

  /** Secure Boot is on and no shim vouches for the image. */
  predicate Unvouched(a: Attempt) {
    a.posture.ActiveDirect? || (a.posture.ActiveWithShim? && !a.shimPresent)
  }

  predicate NativeGood(a: Attempt) {
    (a.hasOptions ==> a.optionsEncodable) && a.nativeLoads && a.loadDigest == a.digest
  }

  predicate FirmwareGood(a: Attempt) { a.firmwareLoads && (a.hasOptions ==> a.firmwareTakesOptions) }

  /** What an attempt should start, read off what it meets. */
  function Choice(a: Attempt): Option<Route> {
    if !Reaches(a) then None
    else if (a.mode.Always? || (a.mode.Auto? && !Unvouched(a))) && NativeGood(a) then Some(Native)
    else if (a.mode.Never? || (a.mode.Auto? && Unvouched(a)) || !a.kind.Uki?) && FirmwareGood(a) then Some(Firmware)
    else None
  }

  /** An attempt ends with a start of the chosen route, or has no start at all. */
  lemma AttemptStarts(a: Attempt)
    ensures var events := AttemptTail(a).events;
      match Choice(a)
      case Some(route) => events[|events| - 1].Started? && events[|events| - 1].route == route
                          && events[|events| - 1].mode == a.mode
      case None => forall i | 0 <= i < |events| :: !events[i].Started?
  {
  }

  /** The native loader is tried. */
  predicate TriesNative(a: Attempt) { Reaches(a) && (a.mode.Always? || (a.mode.Auto? && !Unvouched(a))) }

  lemma RoutedRecords(a: Attempt)
    ensures var events, native := RoutedTail(a).events, a.mode.Always? || (a.mode.Auto? && !Unvouched(a));
      && (NativeFallback in events <==> native && !NativeGood(a) && !a.kind.Uki?)
      && (LoadFailed in events <==> native && !NativeGood(a) && (a.hasOptions ==> a.optionsEncodable))
      && (LoadImageUsed(a.mode) in events <==> !native || (!NativeGood(a) && !a.kind.Uki?))
  {
    var native, firmware := NativeTail(a).events, FirmwareTail(a).events;
    assert LoadImageUsed(a.mode) == firmware[0];
    if |native| > 0 { assert native[0] in native; }
  }

  /** The log tells of every fallback, every failed native load and every use of the firmware loader. */
  lemma RecordsIff(a: Attempt)
    ensures var events := AttemptTail(a).events;
      && (NativeFallback in events <==> TriesNative(a) && !NativeGood(a) && !a.kind.Uki?)
      && (LoadFailed in events <==> TriesNative(a) && !NativeGood(a) && (a.hasOptions ==> a.optionsEncodable))
      && (LoadImageUsed(a.mode) in events <==>
            Reaches(a) && (!TriesNative(a) || (!NativeGood(a) && !a.kind.Uki?)))
  {
    RoutedRecords(a);
    assert forall e | e in AttemptTail(a).events && !e.ImageVerified? :: Reaches(a) && e in RoutedTail(a).events;
    assert Reaches(a) ==> forall e | e in RoutedTail(a).events :: e in AttemptTail(a).events;
  }

  lemma {:induction false} PartOfRun(attempts: seq<Attempt>, k: nat)
    requires k < |attempts|
    ensures IsPart(RunLog(attempts), |RunLog(attempts[..k])|, attempts[k])
    decreases |attempts|
  {
    var init, last := attempts[..|attempts| - 1], attempts[|attempts| - 1];
    if k == |init| {
      LastPart(RunLog(init), last);
    } else {
      PartOfRun(init, k);
      assert init[..k] == attempts[..k];
      PartOfLonger(RunLog(init), AttemptTail(last).events, |RunLog(init[..k])|, init[k]);
    }
  }

  /** In every run, an attempt that chooses a route starts it: its last event is that start. */
  lemma {:induction false} ChosenRouteStarts(attempts: seq<Attempt>, k: nat) returns (s: nat)
    requires k < |attempts| && Choice(attempts[k]).Some?
    ensures s < |RunLog(attempts)| && RunLog(attempts)[s].Started?
    ensures RunLog(attempts)[s].route == Choice(attempts[k]).value && RunLog(attempts)[s].mode == attempts[k].mode
    ensures var from := |RunLog(attempts[..k])|; from <= s < from + |AttemptTail(attempts[k]).events|
  {
    var from, events := |RunLog(attempts[..k])|, AttemptTail(attempts[k]).events;
    PartOfRun(attempts, k);
    AttemptStarts(attempts[k]);
    s := from + |events| - 1;
    assert RunLog(attempts)[s] == RunLog(attempts)[from..from + |events|][|events| - 1];
  }

  /** In every run, each start is the route its own attempt chose: never a native one under `Never`. */
  lemma {:induction false} StartIsChosen(attempts: seq<Attempt>, s: nat) returns (k: nat)
    requires s < |RunLog(attempts)| && RunLog(attempts)[s].Started?
    ensures k < |attempts| && var from := |RunLog(attempts[..k])|; from <= s < from + |AttemptTail(attempts[k]).events|
    ensures Choice(attempts[k]) == Some(RunLog(attempts)[s].route) && RunLog(attempts)[s].mode == attempts[k].mode
    ensures RunLog(attempts)[s].mode.Never? ==> RunLog(attempts)[s].route.Firmware?
  {
    k := AttemptOf(attempts, s);
    var from, events := |RunLog(attempts[..k])|, AttemptTail(attempts[k]).events;
    AttemptStarts(attempts[k]);
    ShapeAt(RunLog(attempts), from, attempts[k], s);
    assert RunLog(attempts)[s] == RunLog(attempts)[from..from + |events|][s - from];
  }

  // ---------------------------------------------------------------------------
  // A digest mismatch
  // ---------------------------------------------------------------------------

  ghost predicate Starts(a: Attempt) {
    exists i :: 0 <= i < |AttemptTail(a).events| && AttemptTail(a).events[i].Started?
  }

  /**
    When the native loader sees other bytes than were verified, the load is refused; the attempt
    still starts an image exactly when it is not a UKI and the firmware loads what it is given.
  */
  lemma MismatchStartsIff(a: Attempt)
    requires !VerifiedVia(a).ShimRejected? && DecideLoadRoute(a.mode, CurrentPosture(a)).Native?
    requires a.hasOptions ==> a.optionsEncodable
    requires a.nativeLoads && a.loadDigest != a.digest && (a.kind.Linux? ==> a.initrdReadable)
    ensures Starts(a) <==> !a.kind.Uki? && a.firmwareLoads && (a.hasOptions ==> a.firmwareTakesOptions)
  {
    var events := AttemptTail(a).events;
    if a.kind.Uki? {
      assert events == [ImageVerified(a.digest, VerifiedVia(a)), LoadFailed];
    } else if !a.firmwareLoads || (a.hasOptions && !a.firmwareTakesOptions) {
      assert events == [ImageVerified(a.digest, VerifiedVia(a)), LoadFailed, NativeFallback, LoadImageUsed(a.mode)];
    } else {
      assert events[5] == Started(Firmware, a.mode, a.firmwareDigest);
    }
  }
}
