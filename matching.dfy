/** Template predicates over strings: `firstMatch`, `matchPattern`,
    `matchValues`, `env` and `genSubdomainWildcardRegexp`. */
module Matching {

  /** Go's `regexp` package, which is not part of this model: whether a
      pattern compiles, and whether a compiled pattern matches somewhere in
      a string. */
  datatype RegexEngine = RegexEngine(compiles: string -> bool, matches: (string, string) -> bool)

  const AnchorOpen := "\\A(?:"
  const AnchorClose := ")\\z"

  /** The pattern wrapped so that it must match the whole string. */
  function Anchored(pattern: string): (r: string)
    ensures |r| == |pattern| + 8
    ensures r[..5] == AnchorOpen && r[|r| - 3..] == AnchorClose && r[5..|r| - 3] == pattern
  {
    AnchorOpen + pattern + AnchorClose
  }

  /** Distinct patterns stay distinct once anchored, so the engine is asked
      about exactly the pattern the caller wrote. */
  lemma AnchoredInjective(p1: string, p2: string)
    requires Anchored(p1) == Anchored(p2)
    ensures p1 == p2
  {
    assert p1 == Anchored(p1)[5..|Anchored(p1)| - 3];
  }

  /** `matchPattern`: whether the anchored pattern matches `s`; a pattern
      that does not compile matches nothing. */
  function MatchPattern(pattern: string, s: string, re: RegexEngine): (b: bool)
    ensures b ==> re.compiles(Anchored(pattern))
    ensures re.compiles(Anchored(pattern)) ==> (b <==> re.matches(Anchored(pattern), s))
  {
    re.compiles(Anchored(pattern)) && re.matches(Anchored(pattern), s)
  }

  /** `values[i]` is the first value the pattern matches. */
  predicate FirstMatchAt(pattern: string, values: seq<string>, re: RegexEngine, i: int)
  {
    && 0 <= i < |values|
    && MatchPattern(pattern, values[i], re)
    && forall j :: 0 <= j < i ==> !MatchPattern(pattern, values[j], re)
  }

  /** `firstMatch`: the first value the anchored pattern matches, or "" when
      none does (in particular when the pattern does not compile). */
  method FirstMatch(pattern: string, values: seq<string>, re: RegexEngine) returns (r: string)
    ensures (exists i :: 0 <= i < |values| && MatchPattern(pattern, values[i], re)) ==>
              exists i :: FirstMatchAt(pattern, values, re, i) && values[i] == r
    ensures (forall i :: 0 <= i < |values| ==> !MatchPattern(pattern, values[i], re)) ==> r == ""
  {
    var anchored := Anchored(pattern);
    if re.compiles(anchored) {
      for i := 0 to |values|
        invariant forall j :: 0 <= j < i ==> !MatchPattern(pattern, values[j], re)
      {
        if re.matches(anchored, values[i]) {
          assert FirstMatchAt(pattern, values, re, i);
          return values[i];
        }
      }
    }
    return "";
  }

  /** At most one position holds the first match. */
  lemma FirstMatchAtUnique(pattern: string, values: seq<string>, re: RegexEngine, i: int, j: int)
    requires FirstMatchAt(pattern, values, re, i) && FirstMatchAt(pattern, values, re, j)
    ensures i == j
  {
  }

  /** `matchValues`: whether `s` is one of the allowed values. */
  method MatchValues(s: string, allowedValues: seq<string>) returns (b: bool)
    ensures b <==> s in allowedValues
  {
    for i := 0 to |allowedValues|
      invariant s !in allowedValues[..i]
    {
      if allowedValues[i] == s {
        return true;
      }
    }
    assert allowedValues[..|allowedValues|] == allowedValues;
    return false;
  }

  /** `env`: the environment variable when it is set and non-empty,
      otherwise the first non-empty default, otherwise "". The lookup
      `os.Getenv` is the parameter `getenv`. */
  method Env(name: string, getenv: string -> string, defaults: seq<string>) returns (r: string)
    ensures getenv(name) != "" ==> r == getenv(name)
    ensures getenv(name) == "" && r != "" ==>
              exists i :: 0 <= i < |defaults| && defaults[i] == r && forall j :: 0 <= j < i ==> defaults[j] == ""
    ensures r == "" <==> getenv(name) == "" && forall i :: 0 <= i < |defaults| ==> defaults[i] == ""
  {
    var envValue := getenv(name);
    if envValue != "" {
      return envValue;
    }
    for i := 0 to |defaults|
      invariant forall j :: 0 <= j < i ==> defaults[j] == ""
    {
      if defaults[i] != "" {
        return defaults[i];
      }
    }
    return "";
  }

  // ---------------------------------------------------------------------
  // genSubdomainWildcardRegexp
  // ---------------------------------------------------------------------

  /** The characters `regexp.QuoteMeta` escapes. */
  predicate IsRegexMeta(c: char)
  {
    c in "\\.+*?()|[]{}^$"
  }

  /** `regexp.QuoteMeta`: a backslash before every metacharacter. */
  function QuoteMeta(s: string): (r: string)
    ensures |r| >= |s|
    ensures s == "" <==> r == ""
    decreases |s|
  {
    if s == [] then []
    else if IsRegexMeta(s[0]) then ['\\', s[0]] + QuoteMeta(s[1..])
    else [s[0]] + QuoteMeta(s[1..])
  }

  /** Reading a quoted pattern back: a backslash stands for the following
      character. */
  function Unquote(s: string): string
    decreases |s|
  {
    if |s| >= 2 && s[0] == '\\' then [s[1]] + Unquote(s[2..])
    else if s == [] then []
    else [s[0]] + Unquote(s[1..])
  }

  /** Quoting loses nothing: unquoting gives the original text back. */
  lemma {:induction false} UnquoteQuoteMeta(s: string)
    ensures Unquote(QuoteMeta(s)) == s
    decreases |s|
  {
    if s != [] {
      UnquoteQuoteMeta(s[1..]);
      var q := QuoteMeta(s[1..]);
      if IsRegexMeta(s[0]) {
        assert (['\\', s[0]] + q)[2..] == q;
      } else {
        assert s[0] != '\\';
        assert ([s[0]] + q)[1..] == q;
      }
      assert s == [s[0]] + s[1..];
    }
  }

  /** A pattern that matches only its own text: read from the left, every
      backslash escapes the next character and no other metacharacter
      occurs. */
  predicate Literal(q: string)
    decreases |q|
  {
    q == [] ||
    (if q[0] == '\\' then |q| >= 2 && Literal(q[2..]) else !IsRegexMeta(q[0]) && Literal(q[1..]))
  }

  /** Quoting yields a literal pattern. */
  lemma {:induction false} QuoteMetaLiteral(s: string)
    ensures Literal(QuoteMeta(s))
    decreases |s|
  {
    if s != [] {
      QuoteMetaLiteral(s[1..]);
      var q := QuoteMeta(s[1..]);
      if IsRegexMeta(s[0]) {
        assert (['\\', s[0]] + q)[2..] == q;
      } else {
        assert ([s[0]] + q)[1..] == q;
      }
    }
  }

  /** `genSubdomainWildcardRegexp`, with `routeapihelpers.GetDomainForHost`
      (which is not part of this model) as the parameter `domainForHost`:
      host and path unchanged when the host has no subdomain, otherwise a
      pattern for any single label followed by the quoted subdomain and
      path, ending there when the path is exact and otherwise also allowing
      sub-paths. */
  function SubdomainWildcardRegexp(hostname: string, path: string, exactPath: bool, domainForHost: string -> string): (r: string)
    ensures |domainForHost(hostname)| == 0 ==> r == hostname + path
    ensures |domainForHost(hostname)| > 0 ==>
              && |r| > 8 && r[..7] == "^[^\\.]*" && r[|r| - 1] == '$'
              && (exactPath ==> Literal(r[7..|r| - 1]))
  {
    var subdomain := domainForHost(hostname);
    if |subdomain| == 0 then hostname + path
    else
      var expr := QuoteMeta("." + subdomain + path);
      QuoteMetaLiteral("." + subdomain + path);
      if exactPath then "^[^\\.]*" + expr + "$" else "^[^\\.]*" + expr + "(|/.*)$"
  }

  /** The two forms share the label wildcard and the quoted subdomain and
      path, and differ only in their tail; without a subdomain the result is
      the host and path whichever form is asked for. */
  lemma SubdomainWildcardForms(hostname: string, path: string, domainForHost: string -> string)
    ensures var exact := SubdomainWildcardRegexp(hostname, path, true, domainForHost);
            var prefix := SubdomainWildcardRegexp(hostname, path, false, domainForHost);
            var subdomain := domainForHost(hostname);
            && (subdomain == "" ==> exact == prefix == hostname + path)
            && (subdomain != "" ==>
                  var stem := "^[^\\.]*" + QuoteMeta("." + subdomain + path);
                  && exact == stem + "$" && prefix == stem + "(|/.*)$"
                  && exact[..|stem|] == prefix[..|stem|] == stem
                  && Literal(exact[7..|stem|])
                  && Unquote(exact[7..|stem|]) == "." + subdomain + path)
  {
    var subdomain := domainForHost(hostname);
    if subdomain != "" {
      UnquoteQuoteMeta("." + subdomain + path);
      QuoteMetaLiteral("." + subdomain + path);
    }
  }
}
