/**
 The table of network configurations of the Wi-Fi device (DevWifiInfo.config in
 niobeu4/liteos_m/hals/drivers/wifi_lite/wifi_device.c). A slot is live when its netId is its own index.
 */
module WifiConfigs {
  import opened Machine
  import opened WifiErrors

  const WIFI_CONFIG_INVALID: int := -1

  /** `rest` stands for every field but netId. */
  datatype WifiDeviceConfig = WifiDeviceConfig(netId: int, rest: seq<char>)

  type Table = seq<WifiDeviceConfig>

  /** The finite map the table stands for. */
  ghost function Live(c: Table): map<nat, seq<char>> {
    map i: nat | i < |c| && c[i].netId == i :: c[i].rest
  }

  ghost predicate WellFormed(c: Table) {
    forall i :: 0 <= i < |c| ==> c[i].netId == i || c[i].netId == WIFI_CONFIG_INVALID
  }

  /** The first slot from `i` on that is not live, or the table's length. */
  function FirstFree(c: Table, i: nat): (r: nat)
    requires i <= |c|
    ensures i <= r <= |c|
    ensures forall j :: i <= j < r ==> c[j].netId == j
    ensures r < |c| ==> c[r].netId != r
    decreases |c| - i
  {
    if i < |c| && c[i].netId == i then FirstFree(c, i + 1) else i
  }

  /** The live configurations from slot `i` on, in slot order. */
  function Listed(c: Table, i: nat): seq<WifiDeviceConfig>
    requires i <= |c|
    decreases |c| - i
  {
    if i == |c| then [] else (if c[i].netId == i then [c[i]] else []) + Listed(c, i + 1)
  }

  function Added(c: Table, x: WifiDeviceConfig): Table {
    var i := FirstFree(c, 0);
    if i == |c| then c else c[i := x.(netId := i)]
  }

  function Removed(c: Table, id: int): Table {
    if 0 <= id < |c| then c[id := c[id].(netId := WIFI_CONFIG_INVALID)] else c
  }

  class ConfigTable {
    const config: array<WifiDeviceConfig>

    constructor (slots: Table)
      ensures config[..] == slots && fresh(config)
    {
      config := new WifiDeviceConfig[|slots|](i requires 0 <= i < |slots| => slots[i]);
    }

    /** The part of DeviceWifiStart that resets the table; the other fields of a slot keep their contents. */
    method DeviceWifiStart()
      modifies config
      ensures forall i :: 0 <= i < config.Length ==>
                config[i] == old(config[i]).(netId := WIFI_CONFIG_INVALID)
      ensures WellFormed(config[..]) && Live(config[..]) == map[]
    {
      for i := 0 to config.Length
        invariant forall j :: 0 <= j < config.Length ==>
          config[j] == if j < i then old(config[j]).(netId := WIFI_CONFIG_INVALID) else old(config[j])
      {
        config[i] := config[i].(netId := WIFI_CONFIG_INVALID);
      }
    }

    /** `config'` is None for a NULL argument; `result` is what is stored through the result pointer. */
    method AddDeviceConfig(config': Option<WifiDeviceConfig>) returns (code: WifiErrorCode, result: Option<nat>)
      modifies config
      ensures code == ERROR_WIFI_INVALID_ARGS <==> config' == None
      ensures config' == None ==> config[..] == old(config[..]) && result == None
      ensures config'.Some? ==>
        && config[..] == Added(old(config[..]), config'.value)
        && (code == ERROR_WIFI_BUSY <==> FirstFree(old(config[..]), 0) == config.Length)
        && result == Some(if code == WIFI_SUCCESS then FirstFree(old(config[..]), 0) else 0)
      ensures code in {WIFI_SUCCESS, ERROR_WIFI_BUSY, ERROR_WIFI_INVALID_ARGS}
    {
      if config' == None {
        return ERROR_WIFI_INVALID_ARGS, None;
      }
      for i := 0 to config.Length
        invariant config[..] == old(config[..])
        invariant FirstFree(config[..], 0) == FirstFree(config[..], i)
      {
        if config[i].netId != i {
          config[i] := config'.value;
          config[i] := config[i].(netId := i);
          return WIFI_SUCCESS, Some(i);
        }
      }
      return ERROR_WIFI_BUSY, Some(0);
    }

    /** `size` is *size on entry; `written` are the entries stored through `result`, `count` is *size on exit. */
    method GetDeviceConfigs(hasResult: bool, size: Option<nat>)
      returns (code: WifiErrorCode, written: seq<WifiDeviceConfig>, count: Option<nat>)
      ensures code == ERROR_WIFI_INVALID_ARGS <==> !hasResult || size == None || size == Some(0)
      ensures code == ERROR_WIFI_INVALID_ARGS ==> written == [] && count == size
      ensures code != ERROR_WIFI_INVALID_ARGS ==>
        && written == Stored(config[..], size.value)
        && (code == ERROR_WIFI_NOT_AVAILABLE <==> Listed(config[..], 0) == [])
        && count == (if written == [] then size else Some(|written|))
      ensures code != ERROR_WIFI_INVALID_ARGS ==> FirstLive(config[..], size.value, written)
      ensures code in {WIFI_SUCCESS, ERROR_WIFI_NOT_AVAILABLE, ERROR_WIFI_INVALID_ARGS}
    {
      hide Listed;
      written, count := [], size;
      if !hasResult || size == None {
        return ERROR_WIFI_INVALID_ARGS, [], size;
      }
      if size.value == 0 {
        return ERROR_WIFI_INVALID_ARGS, [], size;
      }
      var maxIndex := size.value;
      var i := 0;
      while i < config.Length && |written| <= maxIndex
        invariant i <= config.Length && |written| <= maxIndex + 1
        invariant written + Listed(config[..], i) == Listed(config[..], 0)
      {
        ListedNext(config[..], i, written);
        if config[i].netId == i {
          written := written + [config[i]];
        }
        i := i + 1;
      }
      ListedEnd(config[..]);
      StoredFirstLive(config[..], maxIndex);
      if |written| == 0 {
        return ERROR_WIFI_NOT_AVAILABLE, [], size;
      }
      return WIFI_SUCCESS, written, Some(|written|);
    }

    method RemoveDevice(networkId: int) returns (code: WifiErrorCode)
      modifies config
      ensures code == if 0 <= networkId < config.Length then WIFI_SUCCESS else ERROR_WIFI_INVALID_ARGS
      ensures config[..] == Removed(old(config[..]), networkId)
    {
      if networkId >= config.Length || networkId < 0 {
        return ERROR_WIFI_INVALID_ARGS;
      }
      config[networkId] := config[networkId].(netId := WIFI_CONFIG_INVALID);
      return WIFI_SUCCESS;
    }

    /** The checks ConnectTo makes before it configures the station. */
    method ConnectToCheck(networkId: int, active: bool) returns (code: WifiErrorCode)
      ensures code == WIFI_SUCCESS <==> active && networkId in Live(config[..])
      ensures code == ERROR_WIFI_INVALID_ARGS <==> !(0 <= networkId < config.Length)
      ensures code == ERROR_WIFI_NOT_AVAILABLE <==>
        0 <= networkId < config.Length && !(active && networkId in Live(config[..]))
    {
      if networkId >= config.Length || networkId < 0 {
        return ERROR_WIFI_INVALID_ARGS;
      }
      if !active {
        return ERROR_WIFI_NOT_AVAILABLE;
      }
      if config[networkId].netId != networkId {
        return ERROR_WIFI_NOT_AVAILABLE;
      }
      return WIFI_SUCCESS;
    }
  }

  // The table refines a finite map.

  /** What adding means on the map: the least free id, or nothing when all ids are taken. */
  ghost predicate IsLeastFree(m: map<nat, seq<char>>, id: nat) {
    id !in m && forall j: nat :: j < id ==> j in m
  }

  lemma BindSlot(c: Table, id: nat, rest: seq<char>)
    requires id < |c|
    ensures Live(c[id := WifiDeviceConfig(id, rest)]) == Live(c)[id := rest]
  {
    assert Live(c[id := WifiDeviceConfig(id, rest)]).Keys == Live(c).Keys + {id};
  }

  lemma AddTakesLeastFree(c: Table, x: WifiDeviceConfig)
    requires WellFormed(c)
    ensures WellFormed(Added(c, x))
    ensures var id := FirstFree(c, 0);
      && IsLeastFree(Live(c), id)
      && Live(Added(c, x)) == (if id < |c| then Live(c)[id := x.rest] else Live(c))
      && |Added(c, x)| == |c| && forall j :: 0 <= j < |c| && j != id ==> Added(c, x)[j] == c[j]
  {
    hide FirstFree;
    var id := FirstFree(c, 0);
    assert IsLeastFree(Live(c), id);
    hide Live, IsLeastFree;
    if id < |c| {
      BindSlot(c, id, x.rest);
    }
  }

  /** A table is full exactly when every id is live. */
  lemma FullIff(c: Table)
    ensures FirstFree(c, 0) == |c| <==> forall i: nat :: i < |c| ==> i in Live(c)
  {
    var r := FirstFree(c, 0);
    if r < |c| {
      assert r !in Live(c);
    }
  }

  lemma RemoveFreesOneId(c: Table, id: int)
    requires WellFormed(c)
    ensures WellFormed(Removed(c, id)) && |Removed(c, id)| == |c|
    ensures Live(Removed(c, id)) == Live(c) - {id}
    ensures forall i :: 0 <= i < |c| ==> Removed(c, id)[i].rest == c[i].rest && (i != id ==> Removed(c, id)[i] == c[i])
  {
  }

  /** The removed slot still holds what the configuration said. */
  lemma RemovedSlotIsNotCleared()
    ensures Removed([WifiDeviceConfig(0, "home")], 0) == [WifiDeviceConfig(WIFI_CONFIG_INVALID, "home")]
  {
  }

  /** Removing what was just added restores the map. */
  lemma AddThenRemove(c: Table, x: WifiDeviceConfig)
    requires WellFormed(c) && FirstFree(c, 0) < |c|
    ensures Live(Removed(Added(c, x), FirstFree(c, 0))) == Live(c)
  {
    AddTakesLeastFree(c, x);
    RemoveFreesOneId(Added(c, x), FirstFree(c, 0));
    assert Live(c)[FirstFree(c, 0) := x.rest] - {FirstFree(c, 0)} == Live(c);
  }

  datatype Op = Add(x: WifiDeviceConfig) | Remove(id: int)

  /** What a call returns: its code and, for an addition, the id stored through the result pointer. */
  datatype Reply = Reply(code: WifiErrorCode, id: nat)

  function Apply(c: Table, op: Op): (Table, Reply) {
    match op
    case Add(x) =>
      var id := FirstFree(c, 0);
      (Added(c, x), if id < |c| then Reply(WIFI_SUCCESS, id) else Reply(ERROR_WIFI_BUSY, 0))
    case Remove(id) =>
      (Removed(c, id), Reply(if 0 <= id < |c| then WIFI_SUCCESS else ERROR_WIFI_INVALID_ARGS, 0))
  }

  function Run(c: Table, ops: seq<Op>): (r: (Table, seq<Reply>))
    ensures |r.1| == |ops|
    decreases |ops|
  {
    if ops == [] then (c, [])
    else
      var (mid, reply) := Apply(c, ops[0]);
      var (last, replies) := Run(mid, ops[1..]);
      (last, [reply] + replies)
  }

  /** The same call on a finite map with ids below `cap`. */
  ghost predicate MapStep(m: map<nat, seq<char>>, cap: nat, op: Op, reply: Reply, m': map<nat, seq<char>>) {
    match op
    case Add(x) =>
      if forall i: nat :: i < cap ==> i in m then m' == m && reply == Reply(ERROR_WIFI_BUSY, 0)
      else
        && reply.code == WIFI_SUCCESS && reply.id < cap && IsLeastFree(m, reply.id)
        && m' == m[reply.id := x.rest]
    case Remove(id) =>
      m' == m - {id} && reply == Reply(if 0 <= id < cap then WIFI_SUCCESS else ERROR_WIFI_INVALID_ARGS, 0)
  }

  ghost predicate MapRun(m: map<nat, seq<char>>, cap: nat, ops: seq<Op>, replies: seq<Reply>, m': map<nat, seq<char>>)
    decreases |ops|
  {
    if ops == [] then m' == m && replies == []
    else
      && replies != []
      && exists mid :: MapStep(m, cap, ops[0], replies[0], mid) && MapRun(mid, cap, ops[1..], replies[1..], m')
  }

  lemma StepRefinesMap(c: Table, op: Op)
    requires WellFormed(c)
    ensures var (c', reply) := Apply(c, op);
      WellFormed(c') && |c'| == |c| && MapStep(Live(c), |c|, op, reply, Live(c'))
  {
    hide Live, IsLeastFree;
    match op {
      case Add(x) =>
        AddTakesLeastFree(c, x);
        FullIff(c);
      case Remove(id) =>
        RemoveFreesOneId(c, id);
    }
  }

  /**
   From a well-formed table every run of additions and removals does what the finite map does: the same ids and
   codes are returned along the way, and the same map is left.
   */
  lemma {:induction false} TableRefinesMap(c: Table, ops: seq<Op>)
    requires WellFormed(c)
    ensures var (last, replies) := Run(c, ops);
      WellFormed(last) && |last| == |c| && MapRun(Live(c), |c|, ops, replies, Live(last))
    decreases |ops|
  {
    if ops != [] {
      hide Live, Apply, MapStep, WellFormed;
      StepRefinesMap(c, ops[0]);
      var (mid, reply) := Apply(c, ops[0]);
      TableRefinesMap(mid, ops[1..]);
      var replies := Run(c, ops).1;
      assert replies[0] == reply && replies[1..] == Run(mid, ops[1..]).1;
    }
  }

  // The listing.

  /** One turn of the listing loop moves the front of what is left to the end of what is written. */
  lemma ListedNext(c: Table, i: nat, written: seq<WifiDeviceConfig>)
    requires i < |c|
    ensures (if c[i].netId == i then written + [c[i]] else written) + Listed(c, i + 1) == written + Listed(c, i)
  {
    var later := Listed(c, i + 1);
    assert Listed(c, i) == (if c[i].netId == i then [c[i]] else []) + later;
    hide Listed;
    assert (written + [c[i]]) + later == written + ([c[i]] + later);
    assert [] + later == later;
  }

  lemma ListedEnd(c: Table)
    ensures Listed(c, |c|) == []
  {
  }

  /** The listing holds the live configurations and nothing else, by increasing id. */
  lemma {:induction false} ListedInOrder(c: Table, i: nat)
    requires i <= |c|
    ensures forall k :: 0 <= k < |Listed(c, i)| ==>
              var id := Listed(c, i)[k].netId; i <= id < |c| && c[id] == Listed(c, i)[k]
    ensures forall k, l :: 0 <= k < l < |Listed(c, i)| ==> Listed(c, i)[k].netId < Listed(c, i)[l].netId
    ensures forall j :: i <= j < |c| && c[j].netId == j ==> c[j] in Listed(c, i)
    decreases |c| - i
  {
    if i < |c| {
      ListedInOrder(c, i + 1);
    }
  }

  /** As many entries as live ids. */
  lemma {:induction false} ListedCount(c: Table, i: nat)
    requires i <= |c|
    ensures |Listed(c, i)| == |LiveFrom(c, i)|
    decreases |c| - i
  {
    LiveFromNext(c, i);
    hide LiveFrom;
    if i < |c| {
      ListedCount(c, i + 1);
    }
  }

  lemma LiveFromNext(c: Table, i: nat)
    requires i <= |c|
    ensures i == |c| ==> LiveFrom(c, i) == {}
    ensures i < |c| && c[i].netId != i ==> LiveFrom(c, i) == LiveFrom(c, i + 1)
    ensures i < |c| && c[i].netId == i ==> i !in LiveFrom(c, i + 1) && LiveFrom(c, i) == LiveFrom(c, i + 1) + {i}
  {
  }

  ghost function LiveFrom(c: Table, i: nat): set<nat> {
    set j: nat | j in Live(c) && i <= j
  }

  /** The entries GetDeviceConfigs stores for a buffer of `size`. */
  function Stored(c: Table, size: nat): seq<WifiDeviceConfig> {
    var all := Listed(c, 0);
    if |all| <= size then all else all[..size + 1]
  }

  /**
   The number of entries stored, min(live, size + 1), respects the caller's size exactly when no more than `size`
   configurations are live.
   */
  lemma StoredCount(c: Table, size: nat)
    ensures var stored := Stored(c, size);
      && |stored| == (if |Live(c)| <= size then |Live(c)| else size + 1)
      && (|stored| <= size <==> |Live(c)| <= size)
  {
    ListedCount(c, 0);
    assert LiveFrom(c, 0) == Live(c).Keys;
  }

  /** Live slots by increasing id, none left out below one that is there. */
  ghost predicate LiveFront(c: Table, written: seq<WifiDeviceConfig>) {
    && (forall k :: 0 <= k < |written| ==> 0 <= written[k].netId < |c| && c[written[k].netId] == written[k])
    && (forall k, l :: 0 <= k < l < |written| ==> written[k].netId < written[l].netId)
    && forall j, k :: 0 <= k < |written| && 0 <= j < written[k].netId && c[j].netId == j ==> c[j] in written
  }

  /** Of the live configurations the ones with the least ids, by increasing id, up to one more than `size`. */
  ghost predicate FirstLive(c: Table, size: nat, written: seq<WifiDeviceConfig>) {
    |written| == (if |Live(c)| <= size then |Live(c)| else size + 1) && LiveFront(c, written)
  }

  lemma StoredFirstLive(c: Table, size: nat)
    ensures FirstLive(c, size, Stored(c, size))
  {
    StoredCount(c, size);
    ListedIsLiveFront(c);
    assert Stored(c, size) == Listed(c, 0)[..|Stored(c, size)|];
    hide Listed, Live, LiveFront, Stored;
    FrontOfFront(c, Listed(c, 0), |Stored(c, size)|);
  }

  lemma ListedIsLiveFront(c: Table)
    ensures LiveFront(c, Listed(c, 0))
  {
    ListedInOrder(c, 0);
    hide Listed;
  }

  lemma FrontOfFront(c: Table, all: seq<WifiDeviceConfig>, n: nat)
    requires LiveFront(c, all) && n <= |all|
    ensures LiveFront(c, all[..n])
  {
    forall j, k | 0 <= k < n && 0 <= j < all[k].netId && c[j].netId == j
      ensures c[j] in all[..n]
    {
      assert c[j] in all;
      var l :| 0 <= l < |all| && all[l] == c[j];
      assert all[..n][l] == c[j];
    }
  }

  /** These conditions leave no choice. */
  lemma {:induction false} FirstLiveIsUnique(c: Table, size: nat, a: seq<WifiDeviceConfig>, b: seq<WifiDeviceConfig>)
    requires FirstLive(c, size, a) && FirstLive(c, size, b)
    ensures a == b
  {
    forall k | 0 <= k < |a|
      ensures a[k] == b[k]
    {
      SameEntry(c, size, a, b, k);
    }
  }

  lemma {:induction false} SameEntry(
    c: Table, size: nat, a: seq<WifiDeviceConfig>, b: seq<WifiDeviceConfig>, k: nat)
    requires FirstLive(c, size, a) && FirstLive(c, size, b) && k < |a|
    ensures |a| == |b| && a[k] == b[k]
  {
    forall j | 0 <= j < k
      ensures a[j] == b[j]
    {
      SameEntry(c, size, a, b, j);
    }
    if a[k].netId < b[k].netId {
      NoEarlierEntry(c, size, a, b, k);
    } else if b[k].netId < a[k].netId {
      NoEarlierEntry(c, size, b, a, k);
    }
  }

  lemma NoEarlierEntry(c: Table, size: nat, a: seq<WifiDeviceConfig>, b: seq<WifiDeviceConfig>, k: nat)
    requires FirstLive(c, size, a) && FirstLive(c, size, b) && k < |a| && forall j :: 0 <= j < k ==> a[j] == b[j]
    ensures a[k].netId >= b[k].netId
  {
  }

  /** Two live configurations and a buffer of one: two entries are stored. */
  lemma OneEntryTooMany(a: seq<char>, b: seq<char>)
    ensures |Stored([WifiDeviceConfig(0, a), WifiDeviceConfig(1, b)], 1)| == 2
  {
    var c := [WifiDeviceConfig(0, a), WifiDeviceConfig(1, b)];
    assert Listed(c, 2) == [];
    assert Listed(c, 1) == [c[1]];
    assert Listed(c, 0) == [c[0], c[1]];
  }
}
