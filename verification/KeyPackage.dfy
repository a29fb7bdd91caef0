/** The Key Package of lib/timeseries_kp.c: a growable table of key records with a hash index. */
module KeyPackage {
  import opened Basics

  /** One record. `dbatsId` is the backend_state slot of the DBATS backend. */
  datatype KeyInfo = KeyInfo(key: Bytes, value: u64, disabled: bool, dbatsId: Option<nat>)

  // ---------- simple definitions the cached fields must agree with ----------

  function CountEnabled(infos: seq<KeyInfo>): nat {
    if infos == [] then 0
    else CountEnabled(infos[..|infos| - 1]) + (if infos[|infos| - 1].disabled then 0 else 1)
  }

  /** The hash after inserting every record in id order (kh_put repoints an existing name). */
  function IndexOf(infos: seq<KeyInfo>): map<Bytes, nat> {
    if infos == [] then map[]
    else IndexOf(infos[..|infos| - 1])[infos[|infos| - 1].key := |infos| - 1]
  }

  /** What a flush at time t hands to a backend: the enabled records, in id order. */
  function Enabled(infos: seq<KeyInfo>, t: u32): seq<Point> {
    if infos == [] then []
    else
      var ki := infos[|infos| - 1];
      Enabled(infos[..|infos| - 1], t) + (if ki.disabled then [] else [Point(t, ki.key, ki.value)])
  }

  function AfterFlush(ki: KeyInfo, reset: bool, disable: bool): KeyInfo {
    ki.(value := if reset then 0 else ki.value, disabled := ki.disabled || disable)
  }

  predicate SameNames(a: seq<KeyInfo>, b: seq<KeyInfo>) {
    |a| == |b| && forall i :: 0 <= i < |a| ==> a[i].key == b[i].key
  }

  /** The same keys, values and flags: at most the backend state differs. */
  predicate SameTable(a: seq<KeyInfo>, b: seq<KeyInfo>) {
    |a| == |b| && forall i :: 0 <= i < |a| ==> a[i] == b[i].(dbatsId := a[i].dbatsId)
  }

  predicate UniqueNames(infos: seq<KeyInfo>) {
    forall i, j :: 0 <= i < j < |infos| ==> infos[i].key != infos[j].key
  }

  // ---------- lemmas about the definitions ----------

  lemma UniqueNamesKept(before: seq<KeyInfo>, after: seq<KeyInfo>)
    requires SameNames(after, before) && UniqueNames(before)
    ensures UniqueNames(after)
  {
  }

  /** The index holds exactly the names present, each at the largest id carrying it. */
  lemma {:induction false} IndexIsLargestId(infos: seq<KeyInfo>, k: Bytes)
    ensures k in IndexOf(infos) <==> exists i :: 0 <= i < |infos| && infos[i].key == k
    ensures k in IndexOf(infos) ==>
      && 0 <= IndexOf(infos)[k] < |infos|
      && infos[IndexOf(infos)[k]].key == k
      && forall j :: IndexOf(infos)[k] < j < |infos| ==> infos[j].key != k
  {
    if infos != [] {
      var n := |infos| - 1;
      var init := infos[..n];
      IndexIsLargestId(init, k);
      if infos[n].key != k {
        if i :| 0 <= i < |infos| && infos[i].key == k {
          assert init[i].key == k;
        }
        if k in IndexOf(init) {
          assert init[IndexOf(init)[k]].key == k;
          forall j | IndexOf(init)[k] < j < |infos| ensures infos[j].key != k {
            if j < n { assert init[j].key != k; }
          }
        }
      }
    }
  }

  lemma {:induction false} IndexDependsOnNames(a: seq<KeyInfo>, b: seq<KeyInfo>)
    requires SameNames(a, b)
    ensures IndexOf(a) == IndexOf(b)
  {
    if a != [] {
      IndexDependsOnNames(a[..|a| - 1], b[..|b| - 1]);
    }
  }

  /** Backend state is invisible to a flush. */
  lemma {:induction false} TableDecidesFlush(a: seq<KeyInfo>, b: seq<KeyInfo>, t: u32)
    requires SameTable(a, b)
    ensures Enabled(a, t) == Enabled(b, t) && CountEnabled(a) == CountEnabled(b)
  {
    if a != [] {
      TableDecidesFlush(a[..|a| - 1], b[..|b| - 1], t);
    }
  }

  lemma {:induction false} CountEnabledPrefix(infos: seq<KeyInfo>, n: nat)
    requires n <= |infos|
    ensures CountEnabled(infos[..n]) <= CountEnabled(infos)
    ensures n < |infos| ==> CountEnabled(infos[..n + 1]) == CountEnabled(infos[..n]) + (if infos[n].disabled then 0 else 1)
    decreases |infos|
  {
    if n < |infos| {
      assert infos[..n + 1][..n] == infos[..n];
      assert infos[..|infos| - 1][..n] == infos[..n];
      CountEnabledPrefix(infos[..|infos| - 1], n);
    } else {
      assert infos[..n] == infos;
    }
  }

  lemma {:induction false} CountEnabledUpdate(infos: seq<KeyInfo>, i: nat, ki: KeyInfo)
    requires i < |infos|
    ensures CountEnabled(infos[i := ki]) ==
      CountEnabled(infos) + (if infos[i].disabled then 0 else -1) + (if ki.disabled then 0 else 1)
  {
    var n := |infos| - 1;
    if i == n {
      assert infos[i := ki][..n] == infos[..n];
    } else {
      assert infos[i := ki][..n] == infos[..n][i := ki];
      CountEnabledUpdate(infos[..n], i, ki);
    }
  }

  lemma {:induction false} EnabledPrefix(infos: seq<KeyInfo>, n: nat, t: u32)
    requires n <= |infos|
    ensures Enabled(infos[..n], t) <= Enabled(infos, t)
    decreases |infos|
  {
    if n < |infos| {
      EnabledPrefix(infos[..|infos| - 1], n, t);
      assert infos[..|infos| - 1][..n] == infos[..n];
    } else {
      assert infos[..n] == infos;
    }
  }

  lemma EnabledSnoc(infos: seq<KeyInfo>, n: nat, t: u32)
    requires n < |infos|
    ensures Enabled(infos[..n + 1], t) == Enabled(infos[..n], t)
      + (if infos[n].disabled then [] else [Point(t, infos[n].key, infos[n].value)])
  {
    assert infos[..n + 1][..n] == infos[..n];
  }

  lemma EnabledMember(infos: seq<KeyInfo>, n: nat, t: u32)
    requires n < |infos| && !infos[n].disabled
    ensures Point(t, infos[n].key, infos[n].value) in Enabled(infos, t)
  {
    EnabledSnoc(infos, n, t);
    EnabledPrefix(infos, n + 1, t);
    var k := |Enabled(infos[..n], t)|;
    assert Enabled(infos[..n + 1], t)[k] == Point(t, infos[n].key, infos[n].value);
    assert Enabled(infos, t)[k] == Enabled(infos[..n + 1], t)[k];
  }

  /** The cached counter counts the points of a flush. */
  lemma {:induction false} EnabledLength(infos: seq<KeyInfo>, t: u32)
    ensures |Enabled(infos, t)| == CountEnabled(infos)
    ensures forall i :: 0 <= i < |Enabled(infos, t)| ==> Enabled(infos, t)[i].time == t
  {
    if infos != [] {
      EnabledLength(infos[..|infos| - 1], t);
    }
  }

  lemma {:induction false} AllDisabledCountsZero(infos: seq<KeyInfo>)
    requires forall i :: 0 <= i < |infos| ==> infos[i].disabled
    ensures CountEnabled(infos) == 0
  {
    if infos != [] {
      AllDisabledCountsZero(infos[..|infos| - 1]);
    }
  }

  /** The value of k's record when it is enabled. */
  function EnabledAt(infos: seq<KeyInfo>, k: Bytes): Option<u64> {
    if infos == [] then None
    else
      var ki := infos[|infos| - 1];
      if ki.key == k then (if ki.disabled then None else Some(ki.value)) else EnabledAt(infos[..|infos| - 1], k)
  }

  /** EnabledAt reads the record the index points at. */
  lemma {:induction false} EnabledAtIndex(infos: seq<KeyInfo>, k: Bytes)
    ensures k in IndexOf(infos) ==> 0 <= IndexOf(infos)[k] < |infos|
    ensures EnabledAt(infos, k) ==
      if k in IndexOf(infos) && !infos[IndexOf(infos)[k]].disabled then Some(infos[IndexOf(infos)[k]].value) else None
  {
    if infos != [] {
      EnabledAtIndex(infos[..|infos| - 1], k);
    }
  }

  lemma {:induction false} UnknownNotEnabled(infos: seq<KeyInfo>, k: Bytes)
    requires forall i :: 0 <= i < |infos| ==> infos[i].key != k
    ensures EnabledAt(infos, k) == None
  {
    if infos != [] {
      UnknownNotEnabled(infos[..|infos| - 1], k);
    }
  }

  /** Rewriting one record changes what is enabled under its own name only. */
  lemma {:induction false} EnabledAtUpdate(infos: seq<KeyInfo>, id: nat, ki: KeyInfo, k: Bytes)
    requires UniqueNames(infos) && id < |infos| && ki.key == infos[id].key
    ensures EnabledAt(infos[id := ki], k) ==
      if k == ki.key then (if ki.disabled then None else Some(ki.value)) else EnabledAt(infos, k)
  {
    var n := |infos| - 1;
    if id == n {
      assert infos[id := ki][..n] == infos[..n];
    } else {
      assert infos[id := ki][..n] == infos[..n][id := ki];
      EnabledAtUpdate(infos[..n], id, ki, k);
    }
  }

  lemma EnabledAtSnoc(infos: seq<KeyInfo>, ki: KeyInfo, k: Bytes)
    ensures EnabledAt(infos + [ki], k) ==
      if k == ki.key then (if ki.disabled then None else Some(ki.value)) else EnabledAt(infos, k)
  {
    assert (infos + [ki])[..|infos|] == infos;
  }

  lemma {:induction false} EnabledAtUniform(infos: seq<KeyInfo>, k: Bytes)
    ensures (forall i :: 0 <= i < |infos| ==> infos[i].disabled) ==> EnabledAt(infos, k) == None
    ensures (forall i :: 0 <= i < |infos| ==> infos[i].value == 0) ==> EnabledAt(infos, k) in {None, Some(0)}
  {
    if infos != [] {
      EnabledAtUniform(infos[..|infos| - 1], k);
    }
  }

  /** With unique names, a flush carries for k exactly the value of k's enabled record, once. */
  lemma {:induction false} EnabledValue(infos: seq<KeyInfo>, t: u32, k: Bytes)
    requires UniqueNames(infos)
    ensures LastValue(Enabled(infos, t), t, k) == EnabledAt(infos, k)
    ensures SumFor(Enabled(infos, t), k) == (if EnabledAt(infos, k).Some? then EnabledAt(infos, k).value else 0)
  {
    if infos != [] {
      var n := |infos| - 1;
      var init, ki := infos[..n], infos[n];
      EnabledValue(init, t, k);
      var own := if ki.disabled then [] else [Point(t, ki.key, ki.value)];
      EnabledOwn(ki, t, k, own);
      LastValueConcat(Enabled(init, t), own, t, k);
      SumForConcat(Enabled(init, t), own, k);
      if ki.key == k {
        UnknownNotEnabled(init, k);
      }
    }
  }

  lemma {:induction false} NoneEnabledAt(infos: seq<KeyInfo>, k: Bytes)
    requires CountEnabled(infos) == 0
    ensures EnabledAt(infos, k) == None
  {
    if infos != [] {
      NoneEnabledAt(infos[..|infos| - 1], k);
    }
  }

  lemma {:induction false} SomeEnabledAt(infos: seq<KeyInfo>) returns (k: Bytes)
    requires UniqueNames(infos) && CountEnabled(infos) > 0
    ensures EnabledAt(infos, k).Some?
  {
    var n := |infos| - 1;
    k := infos[n].key;
    if infos[n].disabled {
      UnknownNotEnabled(infos[..n], k);
      k := SomeEnabledAt(infos[..n]);
    }
  }

  predicate DistinctKeys(points: seq<Point>) {
    forall i, j :: 0 <= i < j < |points| ==> points[i].key != points[j].key
  }

  lemma {:induction false} EnabledKeysAreNames(infos: seq<KeyInfo>, t: u32, i: nat)
    requires i < |Enabled(infos, t)|
    ensures exists j :: 0 <= j < |infos| && infos[j].key == Enabled(infos, t)[i].key
  {
    var n := |infos| - 1;
    if i < |Enabled(infos[..n], t)| {
      EnabledKeysAreNames(infos[..n], t, i);
      var j :| 0 <= j < n && infos[..n][j].key == Enabled(infos[..n], t)[i].key;
      assert infos[j].key == Enabled(infos, t)[i].key;
    } else {
      assert infos[n].key == Enabled(infos, t)[i].key;
    }
  }

  /** With unique names a flush carries no key twice. */
  lemma {:induction false} EnabledKeysDistinct(infos: seq<KeyInfo>, t: u32)
    requires UniqueNames(infos)
    ensures DistinctKeys(Enabled(infos, t))
  {
    if infos != [] {
      var n := |infos| - 1;
      var before, all := Enabled(infos[..n], t), Enabled(infos, t);
      EnabledKeysDistinct(infos[..n], t);
      forall i | 0 <= i < |before| ensures before[i].key != infos[n].key {
        EnabledKeysAreNames(infos[..n], t, i);
      }
    }
  }

  lemma EnabledOwn(ki: KeyInfo, t: u32, k: Bytes, own: seq<Point>)
    requires own == if ki.disabled then [] else [Point(t, ki.key, ki.value)]
    ensures LastValue(own, t, k) == if ki.key == k && !ki.disabled then Some(ki.value) else None
    ensures SumFor(own, k) == if ki.key == k && !ki.disabled then ki.value else 0
  {
    assert own != [] ==> own[..0] == [];
  }

  // ---------- the object ----------

  /** timeseries_kp_t. `reset` and `disable` are the flags of timeseries_kp_init. */
  class KP {
    var infos: seq<KeyInfo>
    var index: map<Bytes, nat>
    var enabledCnt: nat
    var dirty: bool
    const reset: bool
    const disable: bool

    /** The cached fields agree with their definitions. */
    ghost predicate Valid()
      reads this
    {
      index == IndexOf(infos) && enabledCnt == CountEnabled(infos)
    }

    constructor (reset: bool, disable: bool)
      ensures Valid() && infos == [] && !dirty
      ensures this.reset == reset && this.disable == disable
    {
      infos, index, enabledCnt, dirty := [], map[], 0, false;
      this.reset, this.disable := reset, disable;
    }

    method GetKey(key: Bytes) returns (id: int)
      requires Valid()
      ensures id == -1 <==> forall i :: 0 <= i < |infos| ==> infos[i].key != key
      ensures id != -1 ==> 0 <= id < |infos| && infos[id].key == key && key in index && index[key] == id
      ensures id != -1 ==> forall j :: id < j < |infos| ==> infos[j].key != key
    {
      IndexIsLargestId(infos, key);
      if key !in index {
        return -1;
      }
      return index[key];
    }

    /** Appends a fresh enabled record with value 0, even when the name exists already. */
    method AddKey(key: Bytes) returns (id: nat)
      requires Valid()
      modifies this
      ensures Valid() && dirty
      ensures id == |old(infos)| && infos == old(infos) + [KeyInfo(key, 0, false, None)]
      ensures index == old(index)[key := id] && enabledCnt == old(enabledCnt) + 1
      ensures UniqueNames(old(infos)) && key !in old(index) ==> UniqueNames(infos)
    {
      id := |infos|;
      IndexIsLargestId(infos, key);
      infos := infos + [KeyInfo(key, 0, false, None)];
      index := index[key := id];
      enabledCnt := enabledCnt + 1;
      dirty := true;
      assert infos[..|infos| - 1] == old(infos);
    }

    method DisableKey(id: nat)
      requires Valid() && id < |infos|
      modifies this`infos, this`enabledCnt
      ensures Valid() && infos == old(infos)[id := old(infos)[id].(disabled := true)]
    {
      if !infos[id].disabled {
        CountEnabledUpdate(infos, id, infos[id].(disabled := true));
        infos := infos[id := infos[id].(disabled := true)];
        enabledCnt := enabledCnt - 1;
        IndexDependsOnNames(infos, old(infos));
      }
    }

    method EnableKey(id: nat)
      requires Valid() && id < |infos|
      modifies this`infos, this`enabledCnt
      ensures Valid() && infos == old(infos)[id := old(infos)[id].(disabled := false)]
    {
      if infos[id].disabled {
        CountEnabledUpdate(infos, id, infos[id].(disabled := false));
        infos := infos[id := infos[id].(disabled := false)];
        enabledCnt := enabledCnt + 1;
        IndexDependsOnNames(infos, old(infos));
      }
    }

    method Get(id: nat) returns (value: u64)
      requires id < |infos|
      ensures value == infos[id].value
    {
      value := infos[id].value;
    }

    method Set(id: nat, value: u64)
      requires Valid() && id < |infos|
      modifies this`infos
      ensures Valid() && infos == old(infos)[id := old(infos)[id].(value := value)]
    {
      CountEnabledUpdate(infos, id, infos[id].(value := value));
      infos := infos[id := infos[id].(value := value)];
      IndexDependsOnNames(infos, old(infos));
    }

    /** timeseries_kp_ki_set_backend_state for the DBATS backend. */
    method SetBackendState(id: nat, dbatsId: nat)
      requires Valid() && id < |infos|
      modifies this`infos
      ensures Valid() && infos == old(infos)[id := old(infos)[id].(dbatsId := Some(dbatsId))]
    {
      CountEnabledUpdate(infos, id, infos[id].(dbatsId := Some(dbatsId)));
      infos := infos[id := infos[id].(dbatsId := Some(dbatsId))];
      IndexDependsOnNames(infos, old(infos));
    }

    /** kp_reset_disable: what happens to every record after a completed flush. */
    method ResetDisable()
      requires Valid()
      modifies this`infos, this`enabledCnt
      ensures Valid() && SameNames(infos, old(infos))
      ensures forall i :: 0 <= i < |infos| ==> infos[i] == AfterFlush(old(infos)[i], reset, disable)
      ensures forall i :: 0 <= i < |infos| ==>
        && infos[i].value == (if reset then 0 else old(infos)[i].value)
        && infos[i].disabled == (disable || old(infos)[i].disabled)
      ensures disable ==> enabledCnt == 0
    {
      if !reset && !disable {
        return;
      }
      var i := 0;
      while i < |infos|
        invariant 0 <= i <= |infos| == |old(infos)| && Valid()
        invariant forall j :: 0 <= j < i ==> infos[j] == AfterFlush(old(infos)[j], reset, disable)
        invariant forall j :: i <= j < |infos| ==> infos[j] == old(infos)[j]
      {
        if reset {
          Set(i, 0);
        }
        if disable {
          DisableKey(i);
        }
        i := i + 1;
      }
      if disable {
        AllDisabledCountsZero(infos);
      }
    }
  }
}
