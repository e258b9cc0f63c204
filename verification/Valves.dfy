/** The valve table of the client daemon (client/daemon/src/valve_manager). */
module Valves {
  import opened Types

  datatype ValveState = Closed | Open
  datatype ValveEntry = ValveEntry(id: U16, state: ValveState)
  type Table = seq<ValveEntry>

  /** Where the linear search for `id` stops: the first entry with that id, or the end. */
  function FirstIndex(t: Table, id: U16): (i: nat)
    ensures i <= |t|
    ensures forall k :: 0 <= k < i ==> t[k].id != id
    ensures i < |t| ==> t[i].id == id
  {
    if t == [] then 0
    else if t[0].id == id then 0
    else 1 + FirstIndex(t[1..], id)
  }

  lemma FirstIndexIs(t: Table, id: U16, i: nat)
    requires i <= |t|
    requires forall k :: 0 <= k < i ==> t[k].id != id
    requires i < |t| ==> t[i].id == id
    ensures FirstIndex(t, id) == i
  {
  }

  predicate Known(t: Table, id: U16) {
    FirstIndex(t, id) < |t|
  }

  /** The state a reader of the table sees for `id`. */
  function Find(t: Table, id: U16): Option<ValveState> {
    if Known(t, id) then Some(t[FirstIndex(t, id)].state) else None
  }

  function Set(t: Table, id: U16, state: ValveState): Table {
    if Known(t, id) then var i := FirstIndex(t, id); t[i := ValveEntry(t[i].id, state)] else t
  }

  /** Get after set: only the valve that was set changes, and only if it is known. */
  lemma FindAfterSet(t: Table, id: U16, state: ValveState, other: U16)
    ensures Find(Set(t, id, state), other)
         == if other == id && Known(t, id) then Some(state) else Find(t, other)
    ensures Known(Set(t, id, state), other) <==> Known(t, other)
  {
    var t' := Set(t, id, state);
    var i := FirstIndex(t, other);
    assert forall k :: 0 <= k < |t| ==> t'[k].id == t[k].id;
    FirstIndexIs(t', other, i);
  }

  class ValveManager {
    var valvesMap: array<ValveEntry>

    constructor ()
      ensures fresh(valvesMap) && Contents() == []
    {
      valvesMap := new ValveEntry[0];
    }

    function Contents(): Table
      reads this, valvesMap
    {
      valvesMap[..]
    }

    /** Replaces the whole table; every valve starts closed, whatever it was before. */
    method InitSetValves(valveIds: seq<U16>)
      requires |valveIds| < 0x1_0000
      modifies this
      ensures fresh(valvesMap)
      ensures |Contents()| == |valveIds|
      ensures forall k :: 0 <= k < |valveIds| ==> Contents()[k] == ValveEntry(valveIds[k], Closed)
    {
      var n := |valveIds|;
      valvesMap := new ValveEntry[n](_ => ValveEntry(0, Closed));
      for i := 0 to n
        invariant fresh(valvesMap) && valvesMap.Length == n
        invariant forall k :: 0 <= k < i ==> valvesMap[k] == ValveEntry(valveIds[k], Closed)
      {
        valvesMap[i] := ValveEntry(valveIds[i], Closed);
      }
    }

    /** Returns 0 if the valve was found and set, 1 if it is unknown. */
    method SetValveState(valveId: U16, newState: ValveState) returns (rc: int)
      modifies valvesMap
      ensures Contents() == Set(old(Contents()), valveId, newState)
      ensures rc == if Known(old(Contents()), valveId) then 0 else 1
    {
      for i := 0 to valvesMap.Length
        invariant Contents() == old(Contents())
        invariant forall k :: 0 <= k < i ==> valvesMap[k].id != valveId
      {
        if valvesMap[i].id == valveId {
          FirstIndexIs(Contents(), valveId, i);
          valvesMap[i] := ValveEntry(valvesMap[i].id, newState);
          return 0;
        }
      }
      FirstIndexIs(Contents(), valveId, valvesMap.Length);
      return 1;
    }

    /** Returns 0 and the state, or 1 when the valve is unknown. */
    method GetValveState(valveId: U16) returns (rc: int, state: Option<ValveState>)
      ensures state == Find(Contents(), valveId)
      ensures rc == if state.Some? then 0 else 1
    {
      for i := 0 to valvesMap.Length
        invariant forall k :: 0 <= k < i ==> valvesMap[k].id != valveId
      {
        if valvesMap[i].id == valveId {
          FirstIndexIs(Contents(), valveId, i);
          return 0, Some(valvesMap[i].state);
        }
      }
      FirstIndexIs(Contents(), valveId, valvesMap.Length);
      return 1, None;
    }
  }
}
