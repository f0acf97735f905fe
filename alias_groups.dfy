/** Host grouping of the route table and the choice of one primary alias
    per host (`getHTTPAliasesGroupedByHost`, `getPrimaryAliasKey`). */
module AliasGroups {
  import opened RouterTypes
  import opened Strings
  import opened Collections

  /** `groups` holds exactly the aliases of `keys` that are not passthrough:
      each under its own host and key, nothing else, and no empty bucket. */
  ghost predicate GroupsExactly(aliases: map<AliasKey, Alias>, keys: set<AliasKey>, groups: map<string, map<AliasKey, Alias>>)
  {
    && (forall k :: k in keys && k in aliases && aliases[k].termination != Passthrough ==>
          aliases[k].host in groups && k in groups[aliases[k].host] && groups[aliases[k].host][k] == aliases[k])
    && (forall h, k :: h in groups && k in groups[h] ==>
          k in keys && k in aliases && aliases[k].termination != Passthrough && aliases[k].host == h && groups[h][k] == aliases[k])
    && (forall h :: h in groups ==> |groups[h]| > 0)
  }

  /** One iteration of the grouping loop. */
  function AddToGroup(groups: map<string, map<AliasKey, Alias>>, k: AliasKey, a: Alias): map<string, map<AliasKey, Alias>>
  {
    if a.termination == Passthrough then groups
    else
      var bucket := if a.host in groups then groups[a.host] else map[];
      groups[a.host := bucket[k := a]]
  }

  lemma AddToGroupStep(aliases: map<AliasKey, Alias>, keys: set<AliasKey>, groups: map<string, map<AliasKey, Alias>>, k: AliasKey)
    requires GroupsExactly(aliases, keys, groups) && k in aliases && k !in keys
    ensures GroupsExactly(aliases, keys + {k}, AddToGroup(groups, k, aliases[k]))
  {
  }

  /** The grouping after visiting the keys in `order`. */
  function Grouped(aliases: map<AliasKey, Alias>, order: seq<AliasKey>): map<string, map<AliasKey, Alias>>
    requires forall i :: 0 <= i < |order| ==> order[i] in aliases
    decreases |order|
  {
    if order == [] then map[]
    else
      var k := order[|order| - 1];
      AddToGroup(Grouped(aliases, order[..|order| - 1]), k, aliases[k])
  }

  /** Visiting every key once, in any order, groups exactly those keys. */
  lemma {:induction false} GroupedExactly(aliases: map<AliasKey, Alias>, keys: set<AliasKey>, order: seq<AliasKey>)
    requires forall i :: 0 <= i < |order| ==> order[i] in aliases
    requires NoDuplicates(order)
    requires forall k :: k in keys <==> k in order
    ensures GroupsExactly(aliases, keys, Grouped(aliases, order))
    decreases |order|
  {
    if order == [] {
      assert keys == {};
    } else {
      var n := |order| - 1;
      var k := order[n];
      var front := order[..n];
      assert k !in front by {
        forall i | 0 <= i < n ensures front[i] != k { assert order[i] != order[n]; }
      }
      assert keys - {k} + {k} == keys;
      GroupedExactly(aliases, keys - {k}, front);
      AddToGroupStep(aliases, keys - {k}, Grouped(aliases, front), k);
    }
  }

  /** `getHTTPAliasesGroupedByHost`: every alias that is not passthrough,
      bucketed by host and then by key. Go's map iteration order is
      unspecified, so the loop visits the keys in an arbitrary order. */
  method GroupByHost(aliases: map<AliasKey, Alias>) returns (result: map<string, map<AliasKey, Alias>>)
    ensures GroupsExactly(aliases, aliases.Keys, result)
  {
    result := map[];
    var remaining := aliases.Keys;
    ghost var order: seq<AliasKey> := [];
    while remaining != {}
      invariant remaining <= aliases.Keys
      invariant NoDuplicates(order)
      invariant forall x :: x in order <==> x in aliases && x !in remaining
      invariant result == Grouped(aliases, order)
      decreases remaining
    {
      var k :| k in remaining;
      var a := aliases[k];
      assert (order + [k])[..|order|] == order;
      order := order + [k];
      remaining := remaining - {k};
      if a.termination == Passthrough {
        continue;
      }
      if a.host !in result {
        result := result[a.host := map[]];
      }
      result := result[a.host := result[a.host][k := a]];
    }
    GroupedExactly(aliases, aliases.Keys, order);
  }

  /** An alias that terminates TLS at the router (edge or reencrypt). */
  predicate Terminates(a: Alias)
  {
    a.termination == Edge || a.termination == Reencrypt
  }

  /** Go's `aliases[k].TLSTermination` is edge or reencrypt (a missing key
      reads as the zero alias, which does not terminate). */
  predicate TerminatingKey(aliases: map<string, Alias>, k: string)
  {
    Terminates(AliasAt(aliases, k))
  }

  /** `k` is the primary alias of the group: the greatest key among the
      terminating aliases if there is one, otherwise the greatest key. */
  ghost predicate IsPrimaryKey(aliases: map<string, Alias>, k: string)
  {
    && k in aliases
    && if exists j :: j in aliases && Terminates(aliases[j]) then
         Terminates(aliases[k]) && forall j :: j in aliases && Terminates(aliases[j]) ==> LexLe(j, k)
       else
         forall j :: j in aliases ==> LexLe(j, k)
  }

  /** The primary alias of a group is unique. */
  lemma PrimaryKeyUnique(aliases: map<string, Alias>, k1: string, k2: string)
    requires IsPrimaryKey(aliases, k1) && IsPrimaryKey(aliases, k2)
    ensures k1 == k2
  {
    LexLeAntisymmetric(k1, k2);
  }

  /** The keys of `sorted` cover the group, and anything else in it is a placeholder. */
  ghost predicate CoversGroup(aliases: map<string, Alias>, sorted: seq<string>)
  {
    && (forall j :: j in aliases ==> j in multiset(sorted))
    && (forall p :: 0 <= p < |sorted| ==> sorted[p] == "" || sorted[p] in aliases)
  }

  /** The first terminating key of the descending scan is the primary key. */
  lemma FirstTerminatingIsPrimary(aliases: map<string, Alias>, sorted: seq<string>, i: nat)
    requires SortedDesc(sorted) && CoversGroup(aliases, sorted)
    requires i < |sorted| && TerminatingKey(aliases, sorted[i])
    requires forall p :: 0 <= p < i ==> !TerminatingKey(aliases, sorted[p])
    ensures IsPrimaryKey(aliases, sorted[i])
  {
    var key := sorted[i];
    forall j | j in aliases && Terminates(aliases[j])
      ensures LexLe(j, key)
    {
      var p :| 0 <= p < |sorted| && sorted[p] == j;
      if p == i { LexLeRefl(key); }
    }
  }

  /** With no terminating key in the scan, the first key is the primary key. */
  lemma GreatestIsPrimary(aliases: map<string, Alias>, sorted: seq<string>)
    requires SortedDesc(sorted) && CoversGroup(aliases, sorted) && |aliases| > 0
    requires forall p :: 0 <= p < |sorted| ==> !TerminatingKey(aliases, sorted[p])
    ensures |sorted| > 0 && IsPrimaryKey(aliases, sorted[0])
  {
    var j0 :| j0 in aliases;
    assert j0 in multiset(sorted);
    var key := sorted[0];
    forall j | j in aliases
      ensures LexLe(j, key) && !Terminates(aliases[j])
    {
      var p :| 0 <= p < |sorted| && sorted[p] == j;
      if p == 0 { LexLeRefl(key); }
    }
  }

  lemma OnlyKey(aliases: map<string, Alias>, k: string)
    requires |aliases| == 1 && k in aliases
    ensures aliases.Keys == {k} && IsPrimaryKey(aliases, k)
  {
    forall j | j in aliases ensures j == k {
      assert |aliases.Keys - {k}| == 0;
      assert j !in aliases.Keys - {k};
    }
    LexLeRefl(k);
  }

  lemma SortedCovers(aliases: map<string, Alias>, keys: seq<string>, sorted: seq<string>)
    requires forall i :: 0 <= i < |keys| ==> keys[i] == "" || keys[i] in aliases
    requires forall j :: j in aliases ==> j in keys
    requires multiset(sorted) == multiset(keys)
    ensures CoversGroup(aliases, sorted)
  {
    forall j | j in aliases ensures j in multiset(sorted) {
      assert j in multiset(keys);
    }
    forall p | 0 <= p < |sorted| ensures sorted[p] == "" || sorted[p] in aliases {
      assert sorted[p] in multiset(keys);
    }
  }

  /** The key list of `getPrimaryAliasKey`: `len(aliases)` empty strings
      followed by every key, appended in map iteration order. */
  method PrefilledKeys(aliases: map<string, Alias>) returns (keys: seq<string>)
    ensures |keys| == 2 * |aliases|
    ensures forall i :: 0 <= i < |aliases| ==> keys[i] == ""
    ensures forall i :: |aliases| <= i < |keys| ==> keys[i] in aliases
    ensures forall j :: j in aliases ==> j in keys[|aliases|..]
  {
    keys := seq(|aliases|, _ => "");
    var remaining := aliases.Keys;
    ghost var order: seq<string> := [];
    while remaining != {}
      invariant remaining <= aliases.Keys
      invariant |order| + |remaining| == |aliases|
      invariant forall x :: x in order <==> x in aliases && x !in remaining
      invariant keys == seq(|aliases|, _ => "") + order
      decreases remaining
    {
      var k :| k in remaining;
      keys := keys + [k];
      order := order + [k];
      remaining := remaining - {k};
    }
    assert keys[|aliases|..] == order;
  }

  /** `getPrimaryAliasKey`. As in the source, the key list starts with
      `len(aliases)` empty strings (`make([]string, len(aliases))`) before
      the real keys are appended; the postcondition shows that these
      placeholders never change the answer. */
  method PrimaryAliasKey(aliases: map<string, Alias>) returns (key: string)
    ensures |aliases| == 0 ==> key == ""
    ensures |aliases| == 1 ==> aliases.Keys == {key}
    ensures |aliases| > 0 ==> IsPrimaryKey(aliases, key)
  {
    if |aliases| == 0 {
      return "";
    }
    if |aliases| == 1 {
      var k :| k in aliases;
      OnlyKey(aliases, k);
      return k;
    }

    var keys := PrefilledKeys(aliases);
    var sorted := SortDesc(keys);
    SortedCovers(aliases, keys, sorted);
    key := ScanForPrimary(aliases, sorted);
  }

  /** The final loop of `getPrimaryAliasKey`: the first edge or reencrypt
      key in descending order, or else the first key. */
  method ScanForPrimary(aliases: map<string, Alias>, sorted: seq<string>) returns (key: string)
    requires SortedDesc(sorted) && CoversGroup(aliases, sorted) && |aliases| > 0
    ensures IsPrimaryKey(aliases, key)
  {
    var i := 0;
    while i < |sorted|
      invariant 0 <= i <= |sorted|
      invariant forall p :: 0 <= p < i ==> !TerminatingKey(aliases, sorted[p])
    {
      if TerminatingKey(aliases, sorted[i]) {
        FirstTerminatingIsPrimary(aliases, sorted, i);
        return sorted[i];
      }
      i := i + 1;
    }
    GreatestIsPrimary(aliases, sorted);
    return sorted[0];
  }
}
