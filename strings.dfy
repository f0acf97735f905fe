/** The Go string primitives the template helpers rely on: string ordering
    (`<=` on strings), a descending sort (`sort.Sort(sort.Reverse(...))`),
    `strings.Split` / `strings.Join`, `unicode.IsSpace`, `strings.TrimSpace`,
    `strings.Fields` and `strings.Repeat(" ", n)`. */
module Strings {

  // ---------------------------------------------------------------------
  // Ordering
  // ---------------------------------------------------------------------

  /** Go's `a <= b` on strings: lexicographic, character by character.
      (On Unicode scalar values this is the same order as comparing the
      UTF-8 bytes, which is what Go does.) */
  predicate LexLe(a: string, b: string)
    decreases |a|
  {
    |a| == 0 || (|b| > 0 && (a[0] < b[0] || (a[0] == b[0] && LexLe(a[1..], b[1..]))))
  }

  lemma {:induction false} LexLeRefl(a: string)
    ensures LexLe(a, a)
    decreases |a|
  {
    if |a| > 0 {
      LexLeRefl(a[1..]);
    }
  }

  lemma {:induction false} LexLeTotal(a: string, b: string)
    ensures LexLe(a, b) || LexLe(b, a)
    decreases |a|
  {
    if |a| > 0 && |b| > 0 && a[0] == b[0] {
      LexLeTotal(a[1..], b[1..]);
    }
  }

  lemma {:induction false} LexLeAntisymmetric(a: string, b: string)
    requires LexLe(a, b) && LexLe(b, a)
    ensures a == b
    decreases |a|
  {
    if |a| > 0 {
      assert a[0] == b[0];
      LexLeAntisymmetric(a[1..], b[1..]);
      assert a == [a[0]] + a[1..];
      assert b == [b[0]] + b[1..];
    }
  }

  lemma {:induction false} LexLeTransitive(a: string, b: string, c: string)
    requires LexLe(a, b) && LexLe(b, c)
    ensures LexLe(a, c)
    decreases |a|
  {
    if |a| > 0 && a[0] == b[0] && b[0] == c[0] {
      LexLeTransitive(a[1..], b[1..], c[1..]);
    }
  }

  // ---------------------------------------------------------------------
  // Sorting in descending order
  // ---------------------------------------------------------------------

  /** Every element is greater than or equal to every element after it. */
  predicate SortedDesc(s: seq<string>)
  {
    forall i, j {:trigger LexLe(s[j], s[i])} :: 0 <= i < j < |s| ==> LexLe(s[j], s[i])
  }

  lemma AllBelow(s: seq<string>, y: string, x: string)
    requires forall i :: 0 <= i < |s| ==> LexLe(s[i], y)
    requires LexLe(y, x)
    ensures forall i :: 0 <= i < |s| ==> LexLe(s[i], x)
  {
    forall i | 0 <= i < |s|
      ensures LexLe(s[i], x)
    {
      LexLeTransitive(s[i], y, x);
    }
  }

  lemma InsertBelowHead(x: string, s: seq<string>, t: seq<string>)
    requires SortedDesc(s) && s != [] && LexLe(x, s[0])
    requires SortedDesc(t) && multiset(t) == multiset(s[1..]) + multiset{x}
    ensures SortedDesc([s[0]] + t)
  {
    forall j | 0 <= j < |t|
      ensures LexLe(t[j], s[0])
    {
      assert t[j] in multiset(t);
      if t[j] != x {
        assert t[j] in multiset(s[1..]);
        var i :| 0 <= i < |s[1..]| && s[1..][i] == t[j];
        assert s[i + 1] == t[j];
      }
    }
    var u := [s[0]] + t;
    forall i, j | 0 <= i < j < |u|
      ensures LexLe(u[j], u[i])
    {
      if i > 0 {
        assert u[i] == t[i - 1] && u[j] == t[j - 1];
      }
    }
  }

  /** Inserts `x` into a descending sequence. */
  function InsertDesc(x: string, s: seq<string>): (r: seq<string>)
    requires SortedDesc(s)
    ensures SortedDesc(r)
    ensures multiset(r) == multiset(s) + multiset{x}
  {
    if s == [] then [x]
    else if LexLe(s[0], x) then
      LexLeRefl(s[0]);
      AllBelow(s, s[0], x);
      [x] + s
    else
      LexLeTotal(s[0], x);
      assert s == [s[0]] + s[1..];
      var t := InsertDesc(x, s[1..]);
      InsertBelowHead(x, s, t);
      [s[0]] + t
  }

  /** `sort.Sort(sort.Reverse(sort.StringSlice(s)))`: the elements of `s`
      rearranged into descending order. */
  function SortDesc(s: seq<string>): (r: seq<string>)
    ensures SortedDesc(r)
    ensures multiset(r) == multiset(s)
  {
    if s == [] then []
    else
      assert s == [s[0]] + s[1..];
      InsertDesc(s[0], SortDesc(s[1..]))
  }

  lemma SortedTail(s: seq<string>)
    requires SortedDesc(s) && s != []
    ensures SortedDesc(s[1..])
  {
    forall p, q | 0 <= p < q < |s[1..]|
      ensures LexLe(s[1..][q], s[1..][p])
    {
      assert s[1..][q] == s[q + 1] && s[1..][p] == s[p + 1];
    }
  }

  lemma HeadIsGreatest(s: seq<string>, x: string)
    requires SortedDesc(s) && x in multiset(s)
    ensures s != [] && LexLe(x, s[0])
  {
    var j :| 0 <= j < |s| && s[j] == x;
    if j == 0 { LexLeRefl(s[0]); }
  }

  /** A descending sequence is determined by its elements: two sorted
      arrangements of the same multiset are equal. This is why sorting makes
      the generated map independent of the order in which it was built. */
  lemma {:induction false} SortedDescUnique(a: seq<string>, b: seq<string>)
    requires SortedDesc(a) && SortedDesc(b)
    requires multiset(a) == multiset(b)
    ensures a == b
    decreases |a|
  {
    if a == [] {
      assert |multiset(b)| == 0;
    } else {
      assert a[0] in multiset(a);
      HeadIsGreatest(b, a[0]);
      assert b[0] in multiset(b);
      HeadIsGreatest(a, b[0]);
      LexLeAntisymmetric(a[0], b[0]);
      assert a == [a[0]] + a[1..];
      assert b == [b[0]] + b[1..];
      assert multiset(a[1..]) == multiset(a) - multiset{a[0]};
      assert multiset(b[1..]) == multiset(b) - multiset{b[0]};
      SortedTail(a);
      SortedTail(b);
      SortedDescUnique(a[1..], b[1..]);
    }
  }

  // ---------------------------------------------------------------------
  // strings.Split and strings.Join
  // ---------------------------------------------------------------------

  /** `strings.Split(s, string(sep))`: the pieces between occurrences of
      `sep`; the empty string gives one empty piece. */
  function Split(s: string, sep: char): (parts: seq<string>)
    ensures |parts| >= 1
    ensures forall i :: 0 <= i < |parts| ==> sep !in parts[i]
    decreases |s|
  {
    if s == [] then [""]
    else if s[0] == sep then [""] + Split(s[1..], sep)
    else
      var rest := Split(s[1..], sep);
      [[s[0]] + rest[0]] + rest[1..]
  }

  /** `strings.Join(parts, sep)`. */
  function Join(parts: seq<string>, sep: string): string
  {
    if |parts| == 0 then ""
    else if |parts| == 1 then parts[0]
    else parts[0] + sep + Join(parts[1..], sep)
  }

  lemma {:induction false} SplitPrefix(w: string, t: string, sep: char)
    requires sep !in w
    ensures Split(w + t, sep) == [w + Split(t, sep)[0]] + Split(t, sep)[1..]
    decreases |w|
  {
    if w == [] {
      assert w + t == t;
      var p := Split(t, sep);
      assert p == [p[0]] + p[1..];
      assert w + p[0] == p[0];
    } else {
      assert (w + t)[0] == w[0];
      assert (w + t)[1..] == w[1..] + t;
      SplitPrefix(w[1..], t, sep);
      assert [w[0]] + (w[1..] + Split(t, sep)[0]) == w + Split(t, sep)[0];
    }
  }

  /** Splitting a join at a separator that no part contains gives the parts back. */
  lemma {:induction false} SplitJoin(parts: seq<string>, sep: char)
    requires |parts| >= 1
    requires forall i :: 0 <= i < |parts| ==> sep !in parts[i]
    ensures Split(Join(parts, [sep]), sep) == parts
    decreases |parts|
  {
    if |parts| == 1 {
      SplitPrefix(parts[0], "", sep);
      assert parts[0] + "" == parts[0];
    } else {
      var rest := Join(parts[1..], [sep]);
      assert Join(parts, [sep]) == parts[0] + ([sep] + rest);
      SplitPrefix(parts[0], [sep] + rest, sep);
      assert ([sep] + rest)[1..] == rest;
      SplitJoin(parts[1..], sep);
      assert Split([sep] + rest, sep) == [""] + parts[1..];
      assert parts[0] + "" == parts[0];
      assert parts == [parts[0]] + parts[1..];
    }
  }

  /** Joining the pieces of a split at the same separator gives the string back. */
  lemma {:induction false} JoinSplit(s: string, sep: char)
    ensures Join(Split(s, sep), [sep]) == s
    decreases |s|
  {
    if s != [] {
      var rest := Split(s[1..], sep);
      JoinSplit(s[1..], sep);
      if s[0] == sep {
        assert Join(Split(s, sep), [sep]) == "" + [sep] + Join(rest, [sep]);
      } else if |rest| == 1 {
        assert Join(Split(s, sep), [sep]) == [s[0]] + rest[0];
      } else {
        assert rest == [rest[0]] + rest[1..];
        assert Join(Split(s, sep), [sep]) == [s[0]] + rest[0] + [sep] + Join(rest[1..], [sep]);
      }
      assert s == [s[0]] + s[1..];
    }
  }

  /** `strings.Repeat(" ", n)`. */
  function Spaces(n: nat): (r: string)
    ensures |r| == n && forall i :: 0 <= i < n ==> r[i] == ' '
  {
    seq(n, _ => ' ')
  }

  // ---------------------------------------------------------------------
  // White space: unicode.IsSpace, strings.TrimSpace, strings.Fields
  // ---------------------------------------------------------------------

  /** Go's `unicode.IsSpace`: the Latin-1 spaces '\t', '\n', '\v', '\f',
      '\r', ' ', U+0085 and U+00A0, and the other characters with the
      Unicode White_Space property. */
  predicate IsSpace(c: char)
  {
    c == '\t' || c == '\n' || c == '\U{B}' || c == '\U{C}' || c == '\r' || c == ' '
    || c == '\U{85}' || c == '\U{A0}' || c == '\U{1680}'
    || ('\U{2000}' <= c <= '\U{200A}')
    || c == '\U{2028}' || c == '\U{2029}' || c == '\U{202F}' || c == '\U{205F}' || c == '\U{3000}'
  }

  predicate NoSpace(s: string)
  {
    forall i :: 0 <= i < |s| ==> !IsSpace(s[i])
  }

  predicate AllSpace(s: string)
  {
    forall i :: 0 <= i < |s| ==> IsSpace(s[i])
  }

  function TrimLeft(s: string): (r: string)
    ensures |r| <= |s|
    ensures r == s[|s| - |r|..]
    ensures r != [] ==> !IsSpace(r[0])
    decreases |s|
  {
    if s != [] && IsSpace(s[0]) then TrimLeft(s[1..]) else s
  }

  function TrimRight(s: string): (r: string)
    ensures |r| <= |s|
    ensures r == s[..|r|]
    decreases |s|
  {
    if s != [] && IsSpace(s[|s| - 1]) then TrimRight(s[..|s| - 1]) else s
  }

  /** `strings.TrimSpace`: drops leading and trailing white space. */
  function TrimSpace(s: string): string
  {
    TrimRight(TrimLeft(s))
  }

  lemma {:induction false} TrimLeftEmpty(s: string)
    ensures TrimLeft(s) == "" <==> AllSpace(s)
    decreases |s|
  {
    if s != [] && IsSpace(s[0]) {
      TrimLeftEmpty(s[1..]);
      if AllSpace(s[1..]) {
        forall i | 0 <= i < |s| ensures IsSpace(s[i]) {
          if i > 0 { assert s[i] == s[1..][i - 1]; }
        }
      }
    }
  }

  /** `strings.TrimSpace(s) == ""` exactly when `s` is all white space. */
  lemma TrimSpaceEmpty(s: string)
    ensures TrimSpace(s) == "" <==> AllSpace(s)
  {
    TrimLeftEmpty(s);
    var t := TrimLeft(s);
    if t != "" {
      TrimRightKeepsHead(t);
    }
  }

  lemma {:induction false} TrimRightKeepsHead(t: string)
    requires t != [] && !IsSpace(t[0])
    ensures TrimRight(t) != []
    decreases |t|
  {
    if IsSpace(t[|t| - 1]) {
      assert |t| > 1;
      assert t[..|t| - 1][0] == t[0];
      TrimRightKeepsHead(t[..|t| - 1]);
    }
  }

  /** `strings.TrimSpace(s) == s` exactly when `s` is empty or neither begins
      nor ends with white space. */
  lemma TrimSpaceUnchanged(s: string)
    ensures TrimSpace(s) == s <==> (s == "" || (!IsSpace(s[0]) && !IsSpace(s[|s| - 1])))
  {
    if s != [] {
      if IsSpace(s[0]) {
        assert TrimLeft(s) == TrimLeft(s[1..]);
        assert |TrimLeft(s[1..])| <= |s| - 1;
        assert |TrimSpace(s)| <= |TrimLeft(s)|;
      } else {
        assert TrimLeft(s) == s;
        if IsSpace(s[|s| - 1]) {
          assert TrimRight(s) == TrimRight(s[..|s| - 1]);
          assert |TrimRight(s[..|s| - 1])| <= |s| - 1;
        } else {
          assert TrimRight(s) == s;
        }
      }
    }
  }

  /** Length of the leading run of non-space characters. */
  function TokenLen(s: string): (n: nat)
    ensures n <= |s|
    ensures forall i :: 0 <= i < n ==> !IsSpace(s[i])
    ensures n < |s| ==> IsSpace(s[n])
    ensures s != [] && !IsSpace(s[0]) ==> n >= 1
    decreases |s|
  {
    if s == [] || IsSpace(s[0]) then 0 else 1 + TokenLen(s[1..])
  }

  /** `strings.Fields`: the maximal runs of non-space characters, in order. */
  function Fields(s: string): (fs: seq<string>)
    ensures forall i :: 0 <= i < |fs| ==> fs[i] != "" && NoSpace(fs[i])
    decreases |s|
  {
    if s == [] then []
    else if IsSpace(s[0]) then Fields(s[1..])
    else
      var n := TokenLen(s);
      [s[..n]] + Fields(s[n..])
  }

  lemma {:induction false} TokenLenPrefix(w: string, t: string)
    requires NoSpace(w)
    requires t == "" || IsSpace(t[0])
    ensures TokenLen(w + t) == |w|
    decreases |w|
  {
    if w == [] {
      assert w + t == t;
    } else {
      assert (w + t)[1..] == w[1..] + t;
      TokenLenPrefix(w[1..], t);
    }
  }

  lemma FieldsToken(w: string, t: string)
    requires w != "" && NoSpace(w)
    requires t == "" || IsSpace(t[0])
    ensures Fields(w + t) == [w] + Fields(t)
  {
    TokenLenPrefix(w, t);
    assert (w + t)[..|w|] == w;
    assert (w + t)[|w|..] == t;
  }

  /** Re-splitting with `strings.Fields` a single-space join of non-empty,
      space-free tokens gives the tokens back. */
  lemma {:induction false} FieldsJoin(tokens: seq<string>)
    requires forall i :: 0 <= i < |tokens| ==> tokens[i] != "" && NoSpace(tokens[i])
    ensures Fields(Join(tokens, " ")) == tokens
    decreases |tokens|
  {
    if |tokens| == 1 {
      FieldsToken(tokens[0], "");
      assert tokens[0] + "" == tokens[0];
    } else if |tokens| > 1 {
      var rest := Join(tokens[1..], " ");
      assert Join(tokens, " ") == tokens[0] + (" " + rest);
      FieldsToken(tokens[0], " " + rest);
      assert (" " + rest)[1..] == rest;
      FieldsJoin(tokens[1..]);
      assert tokens == [tokens[0]] + tokens[1..];
    }
  }
}
