/** The endpoints a route's backend is rendered with
    (`endpointsForAlias`, `processEndpointsForAlias`). */
module Endpoints {
  import opened RouterTypes
  import opened Collections

  /** An endpoint serves the preferred port when its port name or its port
      number is that port. */
  predicate ServesPort(e: Endpoint, port: string)
  {
    e.portName == port || e.port == port
  }

  /** The endpoints of `table` serving `port`, in table order. */
  function MatchingEndpoints(table: seq<Endpoint>, port: string): seq<Endpoint>
    decreases |table|
  {
    if table == [] then []
    else
      var e := table[|table| - 1];
      MatchingEndpoints(table[..|table| - 1], port) + (if ServesPort(e, port) then [e] else [])
  }

  /** Every selected endpoint serves the port. */
  lemma {:induction false} MatchingSound(table: seq<Endpoint>, port: string)
    ensures forall i :: 0 <= i < |MatchingEndpoints(table, port)| ==> ServesPort(MatchingEndpoints(table, port)[i], port)
    decreases |table|
  {
    if table != [] {
      MatchingSound(table[..|table| - 1], port);
    }
  }

  /** Every endpoint serving the port is selected as often as it occurs in
      the table, and no other endpoint is selected. */
  lemma {:induction false} MatchingComplete(table: seq<Endpoint>, port: string, e: Endpoint)
    ensures multiset(MatchingEndpoints(table, port))[e] == if ServesPort(e, port) then multiset(table)[e] else 0
    decreases |table|
  {
    if table != [] {
      var front := table[..|table| - 1];
      MatchingComplete(front, port, e);
      assert table == front + [table[|table| - 1]];
    }
  }

  /** The selection keeps the table's order. */
  lemma {:induction false} MatchingKeepsOrder(table: seq<Endpoint>, port: string)
    ensures IsSubsequence(MatchingEndpoints(table, port), table)
    decreases |table|
  {
    if table != [] {
      var front := table[..|table| - 1];
      var e := table[|table| - 1];
      MatchingKeepsOrder(front, port);
      var r := MatchingEndpoints(front, port);
      assert table == front + [e];
      if ServesPort(e, port) {
        IsSubsequenceSnocBoth(r, front, e);
      } else {
        assert MatchingEndpoints(table, port) == r;
        IsSubsequenceSnocRight(r, front, e);
      }
    }
  }

  /** When every endpoint serves the port, the selection is the whole table. */
  lemma {:induction false} MatchingAll(table: seq<Endpoint>, port: string)
    requires forall i :: 0 <= i < |table| ==> ServesPort(table[i], port)
    ensures MatchingEndpoints(table, port) == table
    decreases |table|
  {
    if table != [] {
      MatchingAll(table[..|table| - 1], port);
    }
  }

  /** `endpointsForAlias`: the whole table when the route prefers no port,
      otherwise the endpoints serving the preferred port, in table order. */
  method EndpointsForAlias(alias: Alias, svc: ServiceUnit) returns (endpoints: seq<Endpoint>)
    ensures |alias.preferPort| == 0 ==> endpoints == svc.endpointTable
    ensures |alias.preferPort| > 0 ==> endpoints == MatchingEndpoints(svc.endpointTable, alias.preferPort)
  {
    if |alias.preferPort| == 0 {
      return svc.endpointTable;
    }
    endpoints := [];
    for i := 0 to |svc.endpointTable|
      invariant endpoints == MatchingEndpoints(svc.endpointTable[..i], alias.preferPort)
    {
      var endpoint := svc.endpointTable[i];
      assert svc.endpointTable[..i + 1][..i] == svc.endpointTable[..i];
      if endpoint.portName == alias.preferPort || endpoint.port == alias.preferPort {
        endpoints := endpoints + [endpoint];
      }
    }
    assert svc.endpointTable[..|svc.endpointTable|] == svc.endpointTable;
  }

  /** ASCII case folding, the part of `strings.ToLower` an action name needs. */
  function ToLower(s: string): (r: string)
    ensures |r| == |s|
    ensures forall i :: 0 <= i < |s| ==> if 'A' <= s[i] <= 'Z' then r[i] as int == s[i] as int + 32 else r[i] == s[i]
  {
    seq(|s|, i requires 0 <= i < |s| => if 'A' <= s[i] <= 'Z' then (s[i] as int + 32) as char else s[i])
  }

  /** Swapping two positions keeps the elements. */
  lemma SwapKeepsElements(s: seq<Endpoint>, i: nat, j: nat)
    requires i < |s| && j < |s|
    ensures multiset(s[i := s[j]][j := s[i]]) == multiset(s)
  {
  }

  /** `processEndpointsForAlias`. The random indices `rand.Intn(i + 1)` are
      given as `draws`: the draw for position `i` is `draws[k] % (i + 1)`,
      with `k` counting the draws used so far (0 once they run out). The
      result is the selected endpoints, shuffled (a permutation) when the
      action is "shuffle" in any case, untouched otherwise. */
  method ProcessEndpointsForAlias(alias: Alias, svc: ServiceUnit, action: string, draws: seq<nat>)
    returns (endpoints: seq<Endpoint>)
    ensures |alias.preferPort| == 0 ==> multiset(endpoints) == multiset(svc.endpointTable)
    ensures |alias.preferPort| > 0 ==> multiset(endpoints) == multiset(MatchingEndpoints(svc.endpointTable, alias.preferPort))
    ensures ToLower(action) != "shuffle" ==> endpoints == (if |alias.preferPort| == 0 then svc.endpointTable else MatchingEndpoints(svc.endpointTable, alias.preferPort))
  {
    var selected := EndpointsForAlias(alias, svc);
    if ToLower(action) != "shuffle" {
      return selected;
    }
    var a := new Endpoint[|selected|](k requires 0 <= k < |selected| => selected[k]);
    assert a[..] == selected;
    Shuffle(a, draws);
    endpoints := a[..];
  }

  /** The Fisher-Yates loop of `processEndpointsForAlias`, in place. */
  method Shuffle(a: array<Endpoint>, draws: seq<nat>)
    modifies a
    ensures multiset(a[..]) == multiset(old(a[..]))
  {
    var i := a.Length - 1;
    while i >= 0
      invariant -1 <= i < a.Length
      invariant multiset(a[..]) == multiset(old(a[..]))
    {
      var k := a.Length - 1 - i;
      var rIndex := if k < |draws| then draws[k] % (i + 1) else 0;
      SwapKeepsElements(a[..], i, rIndex);
      a[i], a[rIndex] := a[rIndex], a[i];
      i := i - 1;
    }
  }
}
