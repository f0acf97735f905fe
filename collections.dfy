/** Order-free descriptions of what a loop over a Go map collects, and
    order-preserving subsequences. */
module Collections {

  /** `a` is `b` with some elements left out and the rest kept in order. */
  predicate IsSubsequence<T(==)>(a: seq<T>, b: seq<T>)
    decreases |b|
  {
    a == [] ||
    (b != [] &&
      ((a[|a| - 1] == b[|b| - 1] && IsSubsequence(a[..|a| - 1], b[..|b| - 1]))
       || IsSubsequence(a, b[..|b| - 1])))
  }

  /** Appending the same element to both keeps a subsequence. */
  lemma IsSubsequenceSnocBoth<T>(a: seq<T>, b: seq<T>, x: T)
    requires IsSubsequence(a, b)
    ensures IsSubsequence(a + [x], b + [x])
  {
    assert (a + [x])[..|a|] == a;
    assert (b + [x])[..|b|] == b;
  }

  /** Appending an element to the longer one keeps a subsequence. */
  lemma IsSubsequenceSnocRight<T>(a: seq<T>, b: seq<T>, x: T)
    requires IsSubsequence(a, b)
    ensures IsSubsequence(a, b + [x])
  {
    assert (b + [x])[..|b|] == b;
  }

  /** The keys among `ks` that `m` sends to `s`. */
  ghost function KeysWith(m: map<string, string>, ks: set<string>, s: string): set<string>
  {
    set k | k in ks && k in m && m[k] == s
  }

  /** `lines` holds, for every key of `ks` that `m` maps to a line, that
      line once, and nothing else: each line occurs as many times as there
      are such keys producing it, and there are as many lines as keys. */
  ghost predicate Enumerates(m: map<string, string>, ks: set<string>, lines: seq<string>)
  {
    && |lines| == |ks * m.Keys|
    && forall s :: multiset(lines)[s] == |KeysWith(m, ks, s)|
  }

  lemma EnumeratesEmpty(m: map<string, string>)
    ensures Enumerates(m, {}, [])
  {
    forall s ensures multiset([])[s] == |KeysWith(m, {}, s)| {
      assert KeysWith(m, {}, s) == {};
    }
  }

  /** Visiting one more key extends what was collected by that key's line, if any. */
  lemma EnumeratesStep(m: map<string, string>, done: set<string>, k: string, lines: seq<string>)
    requires Enumerates(m, done, lines) && k !in done
    ensures Enumerates(m, done + {k}, if k in m then lines + [m[k]] else lines)
  {
    var lines' := if k in m then lines + [m[k]] else lines;
    if k in m {
      assert (done + {k}) * m.Keys == done * m.Keys + {k};
    } else {
      assert (done + {k}) * m.Keys == done * m.Keys;
    }
    forall s ensures multiset(lines')[s] == |KeysWith(m, done + {k}, s)| {
      if k in m && m[k] == s {
        assert KeysWith(m, done + {k}, s) == KeysWith(m, done, s) + {k};
      } else {
        assert KeysWith(m, done + {k}, s) == KeysWith(m, done, s);
      }
    }
  }

  /** No key is visited twice. */
  predicate NoDuplicates(order: seq<string>)
  {
    forall i, j :: 0 <= i < j < |order| ==> order[i] != order[j]
  }

  /** What a loop visiting the keys in `order` collects: each visited
      key's line, if it has one, in visit order. */
  function LinesOf(m: map<string, string>, order: seq<string>): seq<string>
    decreases |order|
  {
    if order == [] then []
    else
      var k := order[|order| - 1];
      LinesOf(m, order[..|order| - 1]) + (if k in m then [m[k]] else [])
  }

  /** Visiting one more key. */
  lemma LinesOfSnoc(m: map<string, string>, order: seq<string>, k: string)
    ensures LinesOf(m, order + [k]) == LinesOf(m, order) + (if k in m then [m[k]] else [])
  {
    assert (order + [k])[..|order|] == order;
  }

  /** Visiting the keys of `ks` once each, in any order, collects exactly
      the lines of those keys. */
  lemma {:induction false} LinesOfEnumerates(m: map<string, string>, ks: set<string>, order: seq<string>)
    requires NoDuplicates(order)
    requires forall k :: k in ks <==> k in order
    ensures Enumerates(m, ks, LinesOf(m, order))
    decreases |order|
  {
    if order == [] {
      assert ks == {};
      EnumeratesEmpty(m);
    } else {
      var n := |order| - 1;
      var k := order[n];
      var front := order[..n];
      assert k !in front by {
        forall i | 0 <= i < n ensures front[i] != k { assert order[i] != order[n]; }
      }
      assert ks - {k} + {k} == ks;
      LinesOfEnumerates(m, ks - {k}, front);
      EnumeratesStep(m, ks - {k}, k, LinesOf(m, front));
    }
  }

  /** Reordering what was collected keeps it a collection of the same keys. */
  lemma EnumeratesPermutation(m: map<string, string>, ks: set<string>, a: seq<string>, b: seq<string>)
    requires Enumerates(m, ks, a) && multiset(a) == multiset(b)
    ensures Enumerates(m, ks, b)
  {
    assert |a| == |multiset(a)| == |multiset(b)| == |b|;
  }

  /** Two collections of the same keys have the same elements. */
  lemma EnumeratesSameElements(m: map<string, string>, ks: set<string>, l1: seq<string>, l2: seq<string>)
    requires Enumerates(m, ks, l1) && Enumerates(m, ks, l2)
    ensures multiset(l1) == multiset(l2)
  {
    forall s ensures multiset(l1)[s] == multiset(l2)[s] { }
  }

  /** Every key's line is collected, and every collected line is some key's line. */
  lemma EnumeratesMembers(m: map<string, string>, ks: set<string>, lines: seq<string>)
    requires Enumerates(m, ks, lines)
    ensures forall k :: k in ks && k in m ==> m[k] in lines
    ensures forall i :: 0 <= i < |lines| ==> exists k :: k in ks && k in m && m[k] == lines[i]
  {
    forall k | k in ks && k in m
      ensures m[k] in lines
    {
      assert k in KeysWith(m, ks, m[k]);
      assert multiset(lines)[m[k]] > 0;
    }
    forall i | 0 <= i < |lines|
      ensures exists k :: k in ks && k in m && m[k] == lines[i]
    {
      assert lines[i] in multiset(lines);
      assert |KeysWith(m, ks, lines[i])| > 0;
      var k :| k in KeysWith(m, ks, lines[i]);
    }
  }
}
