/**
 The registry of Wi-Fi event listeners (DevWifiInfo.event in
 niobeu4/liteos_m/hals/drivers/wifi_lite/wifi_device.c): a fixed array of pointers with holes.
 */
module WifiListeners {
  import opened WifiErrors

  /** The five callbacks a listener may provide. */
  datatype Kind = ScanStateChanged | ConnectionChanged | HotspotStaJoin | HotspotStaLeave | HotspotStateChanged

  class WifiEvent {
    const callbacks: set<Kind>

    constructor (callbacks: set<Kind>)
      ensures this.callbacks == callbacks
    {
      this.callbacks := callbacks;
    }
  }

  type Table = seq<WifiEvent?>

  /** The first slot from `i` on that holds `e`, or the table's length. */
  function Find(t: Table, e: WifiEvent?, i: nat): (r: nat)
    requires i <= |t|
    ensures i <= r <= |t|
    ensures forall j :: i <= j < r ==> t[j] != e
    ensures r < |t| ==> t[r] == e
    decreases |t| - i
  {
    if i == |t| || t[i] == e then i else Find(t, e, i + 1)
  }

  function Registered(t: Table, e: WifiEvent): (Table, WifiErrorCode) {
    var hole := Find(t, null, 0);
    if Find(t, e, 0) < hole then (t, ERROR_WIFI_INVALID_ARGS)
    else if hole < |t| then (t[hole := e], WIFI_SUCCESS)
    else (t, ERROR_WIFI_UNKNOWN)
  }

  function Unregistered(t: Table, e: WifiEvent): (Table, WifiErrorCode) {
    var i := Find(t, e, 0);
    if i < |t| then (t[i := null], WIFI_SUCCESS) else (t, ERROR_WIFI_UNKNOWN)
  }

  class Registry {
    const event: array<WifiEvent?>

    constructor (size: nat)
      ensures event.Length == size && fresh(event) && forall i :: 0 <= i < size ==> event[i] == null
    {
      event := new WifiEvent?[size](_ => null);
    }

    method RegisterWifiEvent(e: WifiEvent?) returns (ret: WifiErrorCode)
      modifies event
      ensures e == null ==> ret == ERROR_WIFI_INVALID_ARGS && event[..] == old(event[..])
      ensures e != null ==> (event[..], ret) == Registered(old(event[..]), e)
    {
      if e == null {
        return ERROR_WIFI_INVALID_ARGS;
      }
      for i := 0 to event.Length
        invariant event[..] == old(event[..])
        invariant forall j :: 0 <= j < i ==> event[j] != e && event[j] != null
      {
        if event[i] == e {
          return ERROR_WIFI_INVALID_ARGS;
        }
        if event[i] == null {
          event[i] := e;
          return WIFI_SUCCESS;
        }
      }
      return ERROR_WIFI_UNKNOWN;
    }

    method UnRegisterWifiEvent(e: WifiEvent?) returns (ret: WifiErrorCode)
      modifies event
      ensures e == null ==> ret == ERROR_WIFI_INVALID_ARGS && event[..] == old(event[..])
      ensures e != null ==> (event[..], ret) == Unregistered(old(event[..]), e)
    {
      if e == null {
        return ERROR_WIFI_INVALID_ARGS;
      }
      for i := 0 to event.Length
        invariant event[..] == old(event[..])
        invariant forall j :: 0 <= j < i ==> event[j] != e
      {
        if event[i] == e {
          event[i] := null;
          return WIFI_SUCCESS;
        }
      }
      return ERROR_WIFI_UNKNOWN;
    }

    /**
     The loop the five Send functions share: `slots` are the slots whose callback is called, in call order.
     They are exactly the occupied slots whose listener provides the callback, each once, in slot order.
     */
    method Send(kind: Kind) returns (slots: seq<nat>)
      ensures forall i :: i in slots <==> 0 <= i < event.Length && event[i] != null && kind in event[i].callbacks
      ensures forall k, l :: 0 <= k < l < |slots| ==> slots[k] < slots[l]
    {
      slots := [];
      for i := 0 to event.Length
        invariant forall j :: j in slots <==> 0 <= j < i && event[j] != null && kind in event[j].callbacks
        invariant forall k :: 0 <= k < |slots| ==> slots[k] < i
        invariant forall k, l :: 0 <= k < l < |slots| ==> slots[k] < slots[l]
      {
        if event[i] == null {
          continue;
        }
        if kind !in event[i].callbacks {
          continue;
        }
        assert forall j :: j in slots + [i] <==> j in slots || j == i;
        slots := slots + [i];
      }
    }
  }

  // What the return codes mean.

  ghost predicate BeforeFirstHole(t: Table, e: WifiEvent) {
    exists i :: 0 <= i < |t| && t[i] == e && forall j :: 0 <= j < i ==> t[j] != null
  }

  ghost predicate IsFirst(t: Table, e: WifiEvent?, i: int) {
    0 <= i < |t| && t[i] == e && forall j :: 0 <= j < i ==> t[j] != e
  }

  lemma RegisterCodes(t: Table, e: WifiEvent)
    ensures Registered(t, e).1 == ERROR_WIFI_INVALID_ARGS <==> BeforeFirstHole(t, e)
    ensures Registered(t, e).1 == ERROR_WIFI_UNKNOWN <==> null !in t && e !in t
    ensures Registered(t, e).1 == WIFI_SUCCESS <==> null in t && !BeforeFirstHole(t, e)
    ensures Registered(t, e).1 == WIFI_SUCCESS ==> exists i :: IsFirst(t, null, i) && Registered(t, e).0 == t[i := e]
  {
    var hole, at := Find(t, null, 0), Find(t, e, 0);
    if at < hole {
      assert t[at] == e;
    }
    assert hole < |t| ==> IsFirst(t, null, hole);
    if BeforeFirstHole(t, e) {
      var i :| 0 <= i < |t| && t[i] == e && forall j :: 0 <= j < i ==> t[j] != null;
      assert at <= i && i < hole;
    }
  }

  lemma UnregisterCodes(t: Table, e: WifiEvent)
    ensures Unregistered(t, e).1 == WIFI_SUCCESS <==> e in t
    ensures Unregistered(t, e).1 == ERROR_WIFI_UNKNOWN <==> e !in t
    ensures e in t ==> exists i :: IsFirst(t, e, i) && Unregistered(t, e).0 == t[i := null]
  {
    assert Find(t, e, 0) < |t| ==> IsFirst(t, e, Find(t, e, 0));
    if e in t {
      var i :| 0 <= i < |t| && t[i] == e;
    }
  }

  lemma UpdateBag<T>(t: seq<T>, i: nat, x: T)
    requires i < |t|
    ensures multiset(t[i := x]) == multiset(t) - multiset{t[i]} + multiset{x}
  {
    assert t == t[..i] + [t[i]] + t[i + 1..];
    assert t[i := x] == t[..i] + [x] + t[i + 1..];
  }

  /** A successful registration exchanges one hole for one copy of the listener; a failed one changes nothing. */
  lemma RegisterBag(t: Table, e: WifiEvent)
    ensures var (t', code) := Registered(t, e);
      && multiset(t') == (if code == WIFI_SUCCESS then multiset(t) - multiset{null} + multiset{e} else multiset(t))
      && (code != WIFI_SUCCESS ==> t' == t) && |t'| == |t|
  {
    var hole := Find(t, null, 0);
    if hole < |t| {
      UpdateBag(t, hole, e as WifiEvent?);
    }
  }

  /** A successful removal gives back exactly one copy. */
  lemma UnregisterBag(t: Table, e: WifiEvent)
    ensures var (t', code) := Unregistered(t, e);
      && multiset(t') == (if code == WIFI_SUCCESS then multiset(t) - multiset{e} + multiset{null} else multiset(t))
      && (code != WIFI_SUCCESS ==> t' == t) && |t'| == |t|
  {
    var i := Find(t, e, 0);
    if i < |t| {
      UpdateBag(t, i, null);
    }
  }

  datatype Op = Register(e: WifiEvent) | Unregister(e: WifiEvent)

  function Apply(t: Table, op: Op): (Table, WifiErrorCode) {
    match op
    case Register(e) => Registered(t, e)
    case Unregister(e) => Unregistered(t, e)
  }

  function Run(t: Table, ops: seq<Op>): Table
    decreases |ops|
  {
    if ops == [] then t else Run(Apply(t, ops[0]).0, ops[1..])
  }

  /** Successful registrations of `e` minus successful removals over a run. */
  function Balance(t: Table, ops: seq<Op>, e: WifiEvent): int
    decreases |ops|
  {
    if ops == [] then 0
    else
      var (t', code) := Apply(t, ops[0]);
      (if code != WIFI_SUCCESS || ops[0].e != e then 0 else if ops[0].Register? then 1 else -1)
      + Balance(t', ops[1..], e)
  }

  /** Over any run the copies of a listener are what was there plus registrations minus removals. */
  lemma {:induction false} CopiesBalance(t: Table, ops: seq<Op>, e: WifiEvent)
    ensures |Run(t, ops)| == |t|
    ensures multiset(Run(t, ops))[e] == multiset(t)[e] + Balance(t, ops, e)
    decreases |ops|
  {
    hide Registered, Unregistered;
    if ops != [] {
      var x := ops[0].e;
      if ops[0].Register? {
        RegisterBag(t, x);
      } else {
        UnregisterBag(t, x);
        UnregisterCodes(t, x);
      }
      CopiesBalance(Apply(t, ops[0]).0, ops[1..], e);
    }
  }

  /** The holes, if any, are all at the end, and no listener is there twice. */
  ghost predicate CompactNoDuplicates(t: Table) {
    exists n :: 0 <= n <= |t| && CompactAt(t, n)
  }

  ghost predicate CompactAt(t: Table, n: nat)
    requires n <= |t|
  {
    && (forall i :: 0 <= i < |t| ==> (t[i] == null <==> n <= i))
    && forall i, j :: 0 <= i < j < n ==> t[i] != t[j]
  }

  /** Registrations alone keep a compact table compact and free of duplicates. */
  lemma RegisterKeepsCompact(t: Table, e: WifiEvent)
    requires CompactNoDuplicates(t)
    ensures CompactNoDuplicates(Registered(t, e).0)
  {
    var n :| 0 <= n <= |t| && CompactAt(t, n);
    var t' := Registered(t, e).0;
    if Registered(t, e).1 == WIFI_SUCCESS {
      var hole := Find(t, null, 0);
      assert t[hole] == null && t[n] == null;
      assert t' == t[n := e];
      forall i, j | 0 <= i < j < n + 1
        ensures t'[i] != t'[j]
      {
        assert t[i] != e;
      }
      assert CompactAt(t', n + 1);
    }
  }

  lemma {:induction false} RegisterRunHasNoDuplicates(t: Table, ops: seq<Op>)
    requires CompactNoDuplicates(t) && forall k :: 0 <= k < |ops| ==> ops[k].Register?
    ensures CompactNoDuplicates(Run(t, ops))
    decreases |ops|
  {
    if ops != [] {
      RegisterKeepsCompact(t, ops[0].e);
      RegisterRunHasNoDuplicates(Apply(t, ops[0]).0, ops[1..]);
    }
  }

  /** A registration adds a second copy exactly when the table has a hole and the listener only sits behind it. */
  lemma DuplicateIff(t: Table, e: WifiEvent)
    ensures Registered(t, e).1 == WIFI_SUCCESS && e in t
       <==> e in t && null in t && !BeforeFirstHole(t, e)
  {
    RegisterCodes(t, e);
  }

  /** Such a table arises: register two listeners, remove the first, register the second again. */
  lemma DuplicateArises(a: WifiEvent, b: WifiEvent, t: Table)
    requires a != b && |t| >= 2 && t[0] == null == t[1]
    ensures var t' := Run(t, [Register(a), Register(b), Unregister(a), Register(b)]);
      |t'| == |t| && t'[0] == b == t'[1]
  {
    var t1 := Registered(t, a).0;
    var t2 := Registered(t1, b).0;
    var t3 := Unregistered(t2, a).0;
    var ops := [Register(a), Register(b), Unregister(a), Register(b)];
    assert Run(t, ops) == Run(t1, ops[1..]);
    assert Run(t1, ops[1..]) == Run(t2, ops[1..][1..]);
    assert Run(t2, ops[1..][1..]) == Run(t3, ops[1..][1..][1..]);
    assert ops[1..][1..][1..] == [Register(b)];
    assert Run(t3, [Register(b)]) == Run(Registered(t3, b).0, []);
  }
}
