/**
 Enabling and disabling the station and the hotspot
 (niobeu4/liteos_m/hals/drivers/wifi_lite/wifi_device.c): which network interface and event handlers are live, who
 holds the lock, and the one status byte both modes share. The results of the calls into the ESP and LiteOS
 libraries are parameters.
 */
module WifiLifecycle {
  import opened Machine
  import opened WifiErrors

  const MUX_HANDLE_OFFSET: nat := 8

  datatype Mode = Station | AccessPoint

  datatype RegisterError = NoError | ERROR_NETIF_NULL | ERROR_REGISTER_FAIL

  /** The one handle whose stored form is 0, which means that there is none. */
  const LOST_HANDLE: u32 := TWO_32 - MUX_HANDLE_OFFSET

  /** A handle LOS_MuxCreate hands out, or None when it fails; LockRoundTrip shows why LOST_HANDLE is left out. */
  type Mux = m: Option<u32> | m != Some(LOST_HANDLE) witness None

  /** What the library calls of one API call return; the mutexes are for the first to third attempt to create one. */
  datatype Outcomes = Outcomes(
    mux1: Mux, mux2: Mux, mux3: Mux,
    netifCreated: bool, wifiHandlerOk: bool, ipHandlerOk: bool, storageOk: bool, modeOk: bool, startOk: bool)

  /** How often a resource has been acquired and released since the start. */
  datatype Count = Count(up: nat, down: nat)
  {
    function Acquire(): Count { Count(up + 1, down) }
    function Release(): Count { Count(up, down + 1) }
  }

  /** The fields of DevWifiInfo, and what the libraries have been asked to do so far; `pends` counts LOS_MuxPend. */
  datatype State = State(
    active: bool, ipOk: nat, scanOk: nat, netif: Option<Mode>, wifiHandler: bool, ipHandler: bool, muxHandle: u32,
    lockDepth: nat, pends: nat, netifs: Count, wifiHandlers: Count, ipHandlers: Count)

  const INITIAL: State :=
    State(false, 0, 0, None, false, false, 0, 0, 0, Count(0, 0), Count(0, 0), Count(0, 0))

  /** How a handle is stored. */
  function StoredHandle(h: u32): (r: u32)
    ensures r == 0 <==> h == LOST_HANDLE
  {
    WrapHandle(h);
    Wrap(h + MUX_HANDLE_OFFSET)
  }

  lemma WrapHandle(h: u32)
    ensures Wrap(h + MUX_HANDLE_OFFSET) == if h < LOST_HANDLE then h + MUX_HANDLE_OFFSET else h - LOST_HANDLE
    ensures Wrap(Wrap(h + MUX_HANDLE_OFFSET) - MUX_HANDLE_OFFSET) == h
  {
    WrapOnce(h + MUX_HANDLE_OFFSET, 0 - MUX_HANDLE_OFFSET);
    WrapSmall(h);
    if h < LOST_HANDLE {
      WrapSmall(h + MUX_HANDLE_OFFSET);
    } else {
      WrapSmall(h - LOST_HANDLE);
    }
  }

  function Lock(s: State, create: Option<u32>): State {
    if s.muxHandle == 0 then
      if create == None then s
      else s.(muxHandle := StoredHandle(create.value), lockDepth := s.lockDepth + 1, pends := s.pends + 1)
    else s.(lockDepth := s.lockDepth + 1, pends := s.pends + 1)
  }

  function Unlock(s: State): State {
    if s.muxHandle == 0 then s else s.(lockDepth := if s.lockDepth > 0 then s.lockDepth - 1 else 0)
  }

  /** Everything UnregisterEspEvent does between lock and unlock. */
  function Torn(s: State): State {
    s.(ipOk := 0, scanOk := 0,
       wifiHandler := false, wifiHandlers := if s.wifiHandler then s.wifiHandlers.Release() else s.wifiHandlers,
       ipHandler := false, ipHandlers := if s.ipHandler then s.ipHandlers.Release() else s.ipHandlers,
       netif := None, netifs := if s.netif.Some? then s.netifs.Release() else s.netifs)
  }

  /** Everything RegisterEspEvent does between lock and unlock; a failed registration leaves its slot alone. */
  function SetUp(s: State, mode: Mode, o: Outcomes): State {
    s.(netif := if o.netifCreated then Some(mode) else None,
       netifs := if o.netifCreated then s.netifs.Acquire() else s.netifs,
       wifiHandler := o.wifiHandlerOk || s.wifiHandler,
       wifiHandlers := if o.wifiHandlerOk then s.wifiHandlers.Acquire() else s.wifiHandlers,
       ipHandler := o.ipHandlerOk || s.ipHandler,
       ipHandlers := if o.ipHandlerOk then s.ipHandlers.Acquire() else s.ipHandlers)
  }

  class WifiDevice {
    var active: bool
    var ipOk: nat
    var scanOk: nat
    var netif: Option<Mode>
    var wifiHandler: bool
    var ipHandler: bool
    var muxHandle: u32
    var lockDepth: nat
    var pends: nat
    var netifs: Count
    var wifiHandlers: Count
    var ipHandlers: Count

    function Now(): State
      reads this
    {
      State(active, ipOk, scanOk, netif, wifiHandler, ipHandler, muxHandle, lockDepth, pends,
            netifs, wifiHandlers, ipHandlers)
    }

    constructor ()
      ensures Now() == INITIAL
    {
      active, ipOk, scanOk, netif, wifiHandler, ipHandler := false, 0, 0, None, false, false;
      muxHandle, lockDepth, pends := 0, 0, 0;
      netifs, wifiHandlers, ipHandlers := Count(0, 0), Count(0, 0), Count(0, 0);
    }

    method WifiLock(create: Option<u32>)
      modifies this
      ensures Now() == Lock(old(Now()), create)
    {
      if muxHandle == 0 {
        if create == None {
          return;
        }
        muxHandle := Wrap(create.value + MUX_HANDLE_OFFSET);
      }
      lockDepth, pends := lockDepth + 1, pends + 1;
    }

    method WifiUnlock()
      modifies this
      ensures Now() == Unlock(old(Now()))
    {
      if muxHandle == 0 {
        return;
      }
      // LOS_MuxPost on a mutex nobody holds is refused.
      if lockDepth > 0 {
        lockDepth := lockDepth - 1;
      }
    }

    method UnregisterEspEvent(create: Mux)
      modifies this
      ensures Now() == Unlock(Torn(Lock(old(Now()), create)))
    {
      hide Lock, Unlock;
      WifiLock(create);
      ghost var locked := Now();
      ipOk, scanOk := 0, 0;
      if wifiHandler {
        wifiHandlers := wifiHandlers.Release();
        wifiHandler := false;
      }
      if ipHandler {
        ipHandlers := ipHandlers.Release();
        ipHandler := false;
      }
      if netif != None {
        netifs := netifs.Release();
        netif := None;
      }
      assert Now() == Torn(locked);
      WifiUnlock();
    }

    method RegisterEspEvent(mode: Mode, create: Mux, o: Outcomes) returns (err: RegisterError)
      modifies this
      ensures Now() == Unlock(SetUp(Lock(old(Now()), create), mode, o))
      ensures err == if !o.netifCreated then ERROR_NETIF_NULL else if !o.modeOk then ERROR_REGISTER_FAIL else NoError
    {
      hide Lock;
      WifiLock(create);
      ghost var locked := Now();
      if o.netifCreated {
        netif, netifs := Some(mode), netifs.Acquire();
      } else {
        netif := None;
      }
      var failed: bool;
      failed := !o.wifiHandlerOk;
      if o.wifiHandlerOk {
        wifiHandler, wifiHandlers := true, wifiHandlers.Acquire();
      }
      failed := !o.ipHandlerOk;
      if o.ipHandlerOk {
        ipHandler, ipHandlers := true, ipHandlers.Acquire();
      }
      failed := !o.storageOk;
      failed := !o.modeOk;
      assert Now() == SetUp(locked, mode, o);
      WifiUnlock();
      err := if netif == None then ERROR_NETIF_NULL else if failed then ERROR_REGISTER_FAIL else NoError;
    }

    method EnableWifi(o: Outcomes) returns (code: WifiErrorCode)
      modifies this
      ensures (Now(), code) == Enabled(old(Now()), Station, o)
    {
      hide Torn, SetUp;
      if active {
        return ERROR_WIFI_BUSY;
      }
      UnregisterEspEvent(o.mux1);
      var err := RegisterEspEvent(Station, o.mux2, o);
      var started := false;
      if err == NoError {
        WifiLock(o.mux3);
        started := o.startOk;
        if started {
          active := true;
        }
        WifiUnlock();
      }
      return if started then WIFI_SUCCESS else ERROR_WIFI_IFACE_INVALID;
    }

    method EnableHotspot(o: Outcomes) returns (code: WifiErrorCode)
      modifies this
      ensures (Now(), code) == Enabled(old(Now()), AccessPoint, o)
    {
      hide Torn, SetUp;
      if active {
        return ERROR_WIFI_BUSY;
      }
      UnregisterEspEvent(o.mux1);
      var err := RegisterEspEvent(AccessPoint, o.mux2, o);
      if err != NoError {
        return ERROR_WIFI_INVALID_ARGS;
      }
      WifiLock(o.mux3);
      ipOk := 0;
      if !o.startOk {
        WifiUnlock();
        return ERROR_WIFI_BUSY;
      }
      active := true;
      WifiUnlock();
      return WIFI_SUCCESS;
    }

    /** DisableHotspot calls this too. */
    method DisableWifi(o: Outcomes) returns (code: WifiErrorCode)
      modifies this
      ensures (Now(), code) == Disabled(old(Now()), o)
      ensures code == WIFI_SUCCESS <==> old(active)
      ensures code == ERROR_WIFI_NOT_STARTED <==> !old(active)
      ensures !old(active) ==> Now() == old(Now())
    {
      hide Torn;
      if !active {
        return ERROR_WIFI_NOT_STARTED;
      }
      WifiLock(o.mux1);
      active := false;
      UnregisterEspEvent(o.mux2);
      WifiUnlock();
      return WIFI_SUCCESS;
    }
  }

  function Enabled(s: State, mode: Mode, o: Outcomes): (State, WifiErrorCode) {
    if s.active then (s, ERROR_WIFI_BUSY)
    else
      var s1 := Unlock(Torn(Lock(s, o.mux1)));
      var s2 := Unlock(SetUp(Lock(s1, o.mux2), mode, o));
      if !o.netifCreated || !o.modeOk then
        (s2, if mode == Station then ERROR_WIFI_IFACE_INVALID else ERROR_WIFI_INVALID_ARGS)
      else
        var s3 := Lock(s2, o.mux3);
        var s4 := if mode == AccessPoint then s3.(ipOk := 0) else s3;
        if o.startOk then (Unlock(s4.(active := true)), WIFI_SUCCESS)
        else (Unlock(s4), if mode == Station then ERROR_WIFI_IFACE_INVALID else ERROR_WIFI_BUSY)
  }

  function Disabled(s: State, o: Outcomes): (State, WifiErrorCode) {
    if !s.active then (s, ERROR_WIFI_NOT_STARTED)
    else (Unlock(Unlock(Torn(Lock(Lock(s, o.mux1).(active := false), o.mux2)))), WIFI_SUCCESS)
  }

  // Nothing leaks, whichever calls fail.

  predicate Balanced(c: Count, live: bool) {
    c.up - c.down == if live then 1 else 0
  }

  /** Each slot owns exactly what was acquired and not released, an active device has its interface, and the lock
      is only ever held through an existing mutex. */
  predicate Inv(s: State) {
    && Balanced(s.netifs, s.netif.Some?)
    && Balanced(s.wifiHandlers, s.wifiHandler) && Balanced(s.ipHandlers, s.ipHandler)
    && (s.active ==> s.netif.Some?)
    && (s.lockDepth > 0 ==> s.muxHandle != 0)
  }

  /**
   Unlocking after locking brings the depth back, even when no mutex could be created, for every handle but the one
   whose stored form is 0: that mutex is never posted. The mutex pended and posted is the one created.
   */
  lemma LockRoundTrip(s: State, create: Option<u32>)
    requires s.lockDepth > 0 ==> s.muxHandle != 0
    ensures Unlock(Lock(s, create)).lockDepth == s.lockDepth <==> s.muxHandle != 0 || create != Some(LOST_HANDLE)
    ensures var t := Lock(s, create);
      && (t.lockDepth > 0 && t.muxHandle == 0 ==> create == Some(LOST_HANDLE))
      && (s.muxHandle == 0 && create.Some? ==> Wrap(t.muxHandle - MUX_HANDLE_OFFSET) == create.value)
      && (s.muxHandle == 0 && create == None ==> t == s)
      && (s.muxHandle != 0 ==> t.muxHandle == s.muxHandle)
      && (s.muxHandle != 0 || create.Some? ==> t.lockDepth == s.lockDepth + 1 && t.pends == s.pends + 1)
  {
    if create.Some? {
      WrapHandle(create.value);
    }
  }

  /** Nothing is acquired and the device is inactive. */
  predicate Idle(s: State) {
    !s.active && s.netif == None && !s.wifiHandler && !s.ipHandler
  }

  lemma TearDownKeepsInv(s: State, create: Mux)
    requires Inv(s) && !s.active
    ensures var t := Unlock(Torn(Lock(s, create))); Inv(t) && Idle(t) && t.lockDepth == s.lockDepth
  {
  }

  lemma SetUpKeepsInv(s: State, mode: Mode, create: Mux, o: Outcomes)
    requires Inv(s) && Idle(s)
    ensures var t := Unlock(SetUp(Lock(s, create), mode, o)); Inv(t) && !t.active && t.lockDepth == s.lockDepth
  {
  }

  lemma EnableKeepsInv(s: State, mode: Mode, o: Outcomes)
    requires Inv(s)
    ensures Inv(Enabled(s, mode, o).0) && Enabled(s, mode, o).0.lockDepth == s.lockDepth
  {
    hide Torn, Balanced;
    if !s.active {
      var s1 := Unlock(Torn(Lock(s, o.mux1)));
      TearDownKeepsInv(s, o.mux1);
      SetUpKeepsInv(s1, mode, o.mux2, o);
      var s2 := Unlock(SetUp(Lock(s1, o.mux2), mode, o));
      LockRoundTrip(s2, o.mux3);
    }
  }

  lemma DisableKeepsInv(s: State, o: Outcomes)
    requires Inv(s)
    ensures Inv(Disabled(s, o).0) && Disabled(s, o).0.lockDepth == s.lockDepth
  {
  }

  datatype Call = EnableWifi(o: Outcomes) | DisableWifi(o: Outcomes) | EnableHotspot(o: Outcomes)

  function Apply(s: State, c: Call): (State, WifiErrorCode) {
    match c
    case EnableWifi(o) => Enabled(s, Station, o)
    case EnableHotspot(o) => Enabled(s, AccessPoint, o)
    case DisableWifi(o) => Disabled(s, o)
  }

  function Run(s: State, calls: seq<Call>): State
    decreases |calls|
  {
    if calls == [] then s else Run(Apply(s, calls[0]).0, calls[1..])
  }

  /**
   Over any run, whichever library calls fail: each slot accounts for what was acquired and not released, nothing is
   released twice, and the lock depth never drifts. What a failed enable leaves in its slots is IdleAfterFailureIff.
   */
  lemma {:induction false} NothingLeaks(s: State, calls: seq<Call>)
    requires Inv(s)
    ensures Inv(Run(s, calls)) && Run(s, calls).lockDepth == s.lockDepth
    decreases |calls|
  {
    if calls != [] {
      match calls[0] {
        case EnableWifi(o) => EnableKeepsInv(s, Station, o);
        case EnableHotspot(o) => EnableKeepsInv(s, AccessPoint, o);
        case DisableWifi(o) => DisableKeepsInv(s, o);
      }
      NothingLeaks(Apply(s, calls[0]).0, calls[1..]);
    }
  }

  lemma InvFromStart()
    ensures Inv(INITIAL) && INITIAL.lockDepth == 0
  {
  }

  lemma AtMostOne(s: State)
    requires Inv(s)
    ensures s.netifs.up - s.netifs.down <= 1 && s.wifiHandlers.up - s.wifiHandlers.down <= 1
    ensures s.ipHandlers.up - s.ipHandlers.down <= 1
  {
  }

  /** From power-up: at most one interface and one handler of each kind are live, and the lock is free. */
  lemma NothingLeaksFromStart(calls: seq<Call>)
    ensures var s := Run(INITIAL, calls);
      && Inv(s) && s.lockDepth == 0
      && s.netifs.up - s.netifs.down <= 1 && s.wifiHandlers.up - s.wifiHandlers.down <= 1
      && s.ipHandlers.up - s.ipHandlers.down <= 1
  {
    hide *;
    InvFromStart();
    NothingLeaks(INITIAL, calls);
    AtMostOne(Run(INITIAL, calls));
  }

  /**
   Enabling succeeds exactly when the device is inactive and creating the interface, setting the mode and starting
   the driver all succeed; failed handler registrations do not count. Then the interface is of the asked mode.
   */
  lemma EnableSucceedsIff(s: State, mode: Mode, o: Outcomes)
    ensures Enabled(s, mode, o).1 == WIFI_SUCCESS <==> !s.active && o.netifCreated && o.modeOk && o.startOk
    ensures Enabled(s, mode, o).1 == WIFI_SUCCESS ==>
      var t := Enabled(s, mode, o).0;
      && t.active && t.netif == Some(mode) && t.ipOk == 0 && t.scanOk == 0
      && t.wifiHandler == o.wifiHandlerOk && t.ipHandler == o.ipHandlerOk
    ensures Enabled(s, mode, o).1 != WIFI_SUCCESS ==> Enabled(s, mode, o).0.active == s.active
  {
    hide Torn, SetUp;
    if !s.active {
      EnableSlots(s, mode, o);
      hide AcquiredFrom;
      TearDownSlots(s, o.mux1);
      SetUpSlots(Unlock(Torn(Lock(s, o.mux1))), mode, o.mux2, o);
    }
  }

  /** After a failed enable the inactive device holds nothing exactly when nothing could be created or registered. */
  lemma IdleAfterFailureIff(s: State, mode: Mode, o: Outcomes)
    requires !s.active && Enabled(s, mode, o).1 != WIFI_SUCCESS
    ensures Idle(Enabled(s, mode, o).0) <==> !o.netifCreated && !o.wifiHandlerOk && !o.ipHandlerOk
  {
  }

  /** A first enable that only fails to start the driver leaves an interface that no disable releases. */
  lemma FailedEnableHolds(o: Outcomes, o': Outcomes)
    requires o.netifCreated && o.modeOk && !o.startOk
    ensures var t := Enabled(INITIAL, Station, o).0;
      t.netif == Some(Station) && t.netifs == Count(1, 0) && Disabled(t, o') == (t, ERROR_WIFI_NOT_STARTED)
  {
  }

  /** From `s` to `t` exactly the live slots of `s` have been released. */
  predicate Releases(s: State, t: State) {
    && t.netifs.down == (if s.netif.Some? then s.netifs.down + 1 else s.netifs.down)
    && t.wifiHandlers.down == (if s.wifiHandler then s.wifiHandlers.down + 1 else s.wifiHandlers.down)
    && t.ipHandlers.down == (if s.ipHandler then s.ipHandlers.down + 1 else s.ipHandlers.down)
  }

  lemma TearDownReleases(s: State, create: Mux)
    ensures Releases(s, Unlock(Torn(Lock(s, create))))
  {
  }

  lemma SetUpReleasesNothing(s: State, mode: Mode, create: Mux, o: Outcomes)
    ensures var t := Unlock(SetUp(Lock(s, create), mode, o));
      t.netifs.down == s.netifs.down && t.wifiHandlers.down == s.wifiHandlers.down
      && t.ipHandlers.down == s.ipHandlers.down
  {
  }

  /** From `s` to `t` exactly the resources named have been acquired, once each. */
  predicate AcquiredFrom(s: State, t: State, netif: bool, wifiHandler: bool, ipHandler: bool) {
    && t.netifs.up == (if netif then s.netifs.up + 1 else s.netifs.up)
    && t.wifiHandlers.up == (if wifiHandler then s.wifiHandlers.up + 1 else s.wifiHandlers.up)
    && t.ipHandlers.up == (if ipHandler then s.ipHandlers.up + 1 else s.ipHandlers.up)
  }

  /**
   What an enable leaves on an inactive device, successful or not: each slot holds what this enable could have, and
   nothing is acquired but that.
   */
  lemma EnableSlots(s: State, mode: Mode, o: Outcomes)
    requires !s.active
    ensures var t := Enabled(s, mode, o).0;
      && t.netif == (if o.netifCreated then Some(mode) else None)
      && t.wifiHandler == o.wifiHandlerOk && t.ipHandler == o.ipHandlerOk && t.ipOk == 0 && t.scanOk == 0
      && AcquiredFrom(s, t, o.netifCreated, o.wifiHandlerOk, o.ipHandlerOk)
      && (s.muxHandle != 0 ==> t.muxHandle == s.muxHandle)
  {
    hide Torn, SetUp;
    var s1 := Unlock(Torn(Lock(s, o.mux1)));
    TearDownSlots(s, o.mux1);
    SetUpSlots(s1, mode, o.mux2, o);
  }

  lemma TearDownSlots(s: State, create: Mux)
    ensures var t := Unlock(Torn(Lock(s, create)));
      && t.active == s.active && t.netif == None && !t.wifiHandler && !t.ipHandler && t.ipOk == 0 && t.scanOk == 0
      && AcquiredFrom(s, t, false, false, false) && (s.muxHandle != 0 ==> t.muxHandle == s.muxHandle)
  {
  }

  lemma SetUpSlots(s: State, mode: Mode, create: Mux, o: Outcomes)
    requires !s.wifiHandler && !s.ipHandler
    ensures var t := Unlock(SetUp(Lock(s, create), mode, o));
      && t.active == s.active && t.netif == (if o.netifCreated then Some(mode) else None)
      && t.wifiHandler == o.wifiHandlerOk && t.ipHandler == o.ipHandlerOk && t.ipOk == s.ipOk && t.scanOk == s.scanOk
      && AcquiredFrom(s, t, o.netifCreated, o.wifiHandlerOk, o.ipHandlerOk)
      && (s.muxHandle != 0 ==> t.muxHandle == s.muxHandle)
  {
  }

  /** The next enable, failing or not, releases exactly what was left. */
  lemma EnableReleasesLeftovers(s: State, mode: Mode, o: Outcomes)
    requires !s.active
    ensures Releases(s, Enabled(s, mode, o).0)
  {
    hide Torn, SetUp;
    var s1 := Unlock(Torn(Lock(s, o.mux1)));
    TearDownReleases(s, o.mux1);
    SetUpReleasesNothing(s1, mode, o.mux2, o);
  }

  /** What each failure code means: BUSY of the station, and INVALID_ARGS of the hotspot, have one cause each. */
  lemma EnableCodes(s: State, o: Outcomes)
    ensures Enabled(s, Station, o).1 in {WIFI_SUCCESS, ERROR_WIFI_BUSY, ERROR_WIFI_IFACE_INVALID}
    ensures Enabled(s, Station, o).1 == ERROR_WIFI_BUSY <==> s.active
    ensures Enabled(s, AccessPoint, o).1 in {WIFI_SUCCESS, ERROR_WIFI_BUSY, ERROR_WIFI_INVALID_ARGS}
    ensures Enabled(s, AccessPoint, o).1 == ERROR_WIFI_INVALID_ARGS <==> !s.active && !(o.netifCreated && o.modeOk)
  {
    hide Lock, Unlock, Torn, SetUp;
  }

  function One(b: bool): nat { if b then 1 else 0 }

  lemma LockedOnce(s: State, create: Mux, mode: Mode, o: Outcomes)
    ensures var have := s.muxHandle != 0 || create.Some?;
      var t, u := Unlock(Torn(Lock(s, create))), Unlock(SetUp(Lock(s, create), mode, o));
      && (t.muxHandle != 0 <==> have) && t.pends == s.pends + One(have)
      && (u.muxHandle != 0 <==> have) && u.pends == s.pends + One(have)
  {
  }

  /**
   An enable of an inactive device takes the lock for its teardown, for its setup and, when that went well, for the
   start; each of the three tries to create the mutex if there is none, and goes on without when that fails.
   */
  lemma EnableLocks(s: State, mode: Mode, o: Outcomes)
    requires !s.active
    ensures var t := Enabled(s, mode, o).0;
      var have1 := s.muxHandle != 0 || o.mux1.Some?;
      var have2 := have1 || o.mux2.Some?;
      var have3 := have2 || o.mux3.Some?;
      var third := o.netifCreated && o.modeOk;
      && (t.muxHandle != 0 <==> have2 || (third && have3))
      && t.pends == s.pends + One(have1) + One(have2) + One(third && have3)
  {
    hide Torn, SetUp;
    var s1 := Unlock(Torn(Lock(s, o.mux1)));
    LockedOnce(s, o.mux1, mode, o);
    LockedOnce(s1, o.mux2, mode, o);
  }

  /** A disable of an active device takes the lock and, for the teardown, once more. */
  lemma DisableLocks(s: State, o: Outcomes)
    requires s.active
    ensures var t := Disabled(s, o).0;
      var have1 := s.muxHandle != 0 || o.mux1.Some?;
      var have2 := have1 || o.mux2.Some?;
      (t.muxHandle != 0 <==> have2) && t.pends == s.pends + One(have1) + One(have2)
  {
  }

  /** A disable reports success exactly on an active device, and leaves an inactive one alone. */
  lemma DisableCodes(s: State, o: Outcomes)
    ensures Disabled(s, o).1 == WIFI_SUCCESS <==> s.active
    ensures Disabled(s, o).1 == ERROR_WIFI_NOT_STARTED <==> !s.active
    ensures !s.active ==> Disabled(s, o).0 == s
  {
  }

  /** Disabling an active device releases everything it holds, and makes the next disable report NOT_STARTED. */
  lemma DisableReleasesAll(s: State, o: Outcomes, o': Outcomes)
    requires Inv(s) && s.active
    ensures var t := Disabled(s, o).0;
      && !t.active && t.netif == None && !t.wifiHandler && !t.ipHandler && t.ipOk == 0 && t.scanOk == 0
      && t.netifs.up == t.netifs.down
      && t.wifiHandlers.up == t.wifiHandlers.down && t.ipHandlers.up == t.ipHandlers.down
      && Disabled(t, o') == (t, ERROR_WIFI_NOT_STARTED)
  {
  }

  /** It acquires nothing, releases each live slot once, and keeps the mutex. */
  lemma DisableKeepsCounts(s: State, o: Outcomes)
    requires s.active
    ensures var t := Disabled(s, o).0;
      && Releases(s, t) && AcquiredFrom(s, t, false, false, false)
      && (s.muxHandle != 0 ==> t.muxHandle == s.muxHandle)
  {
  }

  /** Whichever of the two modes is on, enabling either one changes nothing until something disables the device. */
  lemma {:induction false} BusyUntilDisabled(s: State, calls: seq<Call>)
    requires s.active && forall k :: 0 <= k < |calls| ==> !calls[k].DisableWifi?
    ensures Run(s, calls) == s
    decreases |calls|
  {
    if calls != [] {
      BusyUntilDisabled(s, calls[1..]);
    }
  }
}
