/** Helpers that normalise route annotation values before they reach the
    HAProxy configuration: `indent`, `parseIPList` and
    `clipHAProxyTimeoutValue`. */
module Annotations {
  import opened Strings
  import opened Collections

  // ---------------------------------------------------------------------
  // indent
  // ---------------------------------------------------------------------

  /** `indent`: every non-empty line of `input` gets `spaces` leading
      blanks; empty lines, and the whole input when it is empty or
      `spaces` is not positive, are left alone. The input's line count is
      kept. */
  method Indent(input: string, spaces: int) returns (r: string)
    ensures input == "" ==> r == ""
    ensures spaces <= 0 ==> r == input
    ensures spaces > 0 ==>
              var inLines := Split(input, '\n');
              var outLines := Split(r, '\n');
              && |outLines| == |inLines|
              && forall i :: 0 <= i < |inLines| ==>
                   if inLines[i] == "" then outLines[i] == "" else outLines[i] == Spaces(spaces) + inLines[i]
  {
    if input == "" {
      return "";
    }
    if spaces <= 0 {
      return input;
    }
    var padding := Spaces(spaces);
    var split := Split(input, '\n');
    var lines := new string[|split|](k requires 0 <= k < |split| => split[k]);
    for i := 0 to lines.Length
      invariant forall k :: 0 <= k < i ==> if split[k] == "" then lines[k] == "" else lines[k] == padding + split[k]
      invariant forall k :: i <= k < lines.Length ==> lines[k] == split[k]
    {
      if lines[i] != "" {
        lines[i] := padding + lines[i];
      }
    }
    forall k | 0 <= k < lines.Length ensures '\n' !in lines[k] {
      assert '\n' !in split[k];
      assert '\n' !in padding;
    }
    r := Join(lines[..], "\n");
    SplitJoin(lines[..], '\n');
  }

  /** With no non-empty line, indenting changes nothing: the line-wise
      description of `Indent` then determines its result as the input. */
  lemma IndentBlankLines(input: string, spaces: int, r: string)
    requires forall i :: 0 <= i < |Split(input, '\n')| ==> Split(input, '\n')[i] == ""
    requires |Split(r, '\n')| == |Split(input, '\n')|
    requires forall i :: 0 <= i < |Split(input, '\n')| ==> Split(r, '\n')[i] == ""
    ensures r == input
  {
    assert Split(r, '\n') == Split(input, '\n');
    JoinSplit(r, '\n');
    JoinSplit(input, '\n');
  }

  /** Removing the padding again: the output lines determine the input,
      since the input is the join of its lines and each non-empty output
      line is the padding followed by the input line. */
  lemma IndentIsInvertible(input: string, spaces: nat, r: string)
    requires var inLines := Split(input, '\n');
             var outLines := Split(r, '\n');
             && |outLines| == |inLines|
             && forall i :: 0 <= i < |inLines| ==>
                  if inLines[i] == "" then outLines[i] == "" else outLines[i] == Spaces(spaces) + inLines[i]
    ensures var outLines := Split(r, '\n');
            input == Join(seq(|outLines|, i requires 0 <= i < |outLines| => if outLines[i] == "" then "" else outLines[i][spaces..]), "\n")
  {
    var inLines := Split(input, '\n');
    var outLines := Split(r, '\n');
    var stripped := seq(|outLines|, i requires 0 <= i < |outLines| => if outLines[i] == "" then "" else outLines[i][spaces..]);
    forall i | 0 <= i < |inLines| ensures stripped[i] == inLines[i] {
      if inLines[i] != "" {
        assert outLines[i] != "";
        assert outLines[i][spaces..] == inLines[i];
      }
    }
    assert stripped == inLines;
    JoinSplit(input, '\n');
  }

  // ---------------------------------------------------------------------
  // parseIPList
  // ---------------------------------------------------------------------

  /** `net.ParseIP(s) != nil` and `net.ParseCIDR(s)` returning no error;
      neither is part of this model. */
  datatype AddressParsers = AddressParsers(parseIP: string -> bool, parseCIDR: string -> bool)

  /** A token is kept when it parses as an IP address or as a CIDR block. */
  predicate ValidAddress(p: AddressParsers, token: string)
  {
    p.parseIP(token) || p.parseCIDR(token)
  }

  /** The valid tokens, in order. */
  function ValidAddresses(p: AddressParsers, tokens: seq<string>): seq<string>
    decreases |tokens|
  {
    if tokens == [] then []
    else
      var t := tokens[|tokens| - 1];
      ValidAddresses(p, tokens[..|tokens| - 1]) + (if ValidAddress(p, t) then [t] else [])
  }

  /** A list is looked at only when it has a non-blank character and
      neither starts nor ends with white space. */
  predicate WellFormedList(list: string)
  {
    !AllSpace(list) && !IsSpace(list[0]) && !IsSpace(list[|list| - 1])
  }

  /** What `parseIPList` returns: nothing for a malformed list, otherwise
      the valid addresses separated by single spaces. */
  function ParsedIPList(list: string, p: AddressParsers): string
  {
    if WellFormedList(list) then Join(ValidAddresses(p, Fields(list)), " ") else ""
  }

  /** `parseIPList`. */
  method ParseIPList(list: string, p: AddressParsers) returns (r: string)
    ensures r == ParsedIPList(list, p)
  {
    var trimmedList := TrimSpace(list);
    TrimSpaceEmpty(list);
    TrimSpaceUnchanged(list);
    if trimmedList == "" {
      return "";
    }
    if trimmedList != list {
      return "";
    }
    var validIPs: seq<string> := [];
    var ipList := Fields(list);
    for i := 0 to |ipList|
      invariant validIPs == ValidAddresses(p, ipList[..i])
    {
      var ip := ipList[i];
      assert ipList[..i + 1][..i] == ipList[..i];
      if p.parseIP(ip) {
        validIPs := validIPs + [ip];
      } else if p.parseCIDR(ip) {
        validIPs := validIPs + [ip];
      }
    }
    assert ipList[..|ipList|] == ipList;
    if |validIPs| == 0 {
      return "";
    }
    r := Join(validIPs, " ");
  }

  /** Every kept address is a valid token of the input, and every valid
      token is kept as often as it occurs. */
  lemma {:induction false} ValidAddressesExact(p: AddressParsers, tokens: seq<string>, t: string)
    ensures multiset(ValidAddresses(p, tokens))[t] == if ValidAddress(p, t) then multiset(tokens)[t] else 0
    decreases |tokens|
  {
    if tokens != [] {
      var front := tokens[..|tokens| - 1];
      ValidAddressesExact(p, front, t);
      assert tokens == front + [tokens[|tokens| - 1]];
    }
  }

  /** The kept addresses keep their order in the list. */
  lemma {:induction false} ValidAddressesInOrder(p: AddressParsers, tokens: seq<string>)
    ensures IsSubsequence(ValidAddresses(p, tokens), tokens)
    decreases |tokens|
  {
    if tokens != [] {
      var front := tokens[..|tokens| - 1];
      var t := tokens[|tokens| - 1];
      ValidAddressesInOrder(p, front);
      var r := ValidAddresses(p, front);
      assert tokens == front + [t];
      if ValidAddress(p, t) {
        IsSubsequenceSnocBoth(r, front, t);
      } else {
        assert ValidAddresses(p, tokens) == r;
        IsSubsequenceSnocRight(r, front, t);
      }
    }
  }

  /** Keeping some tokens of a list keeps each one non-empty and blank-free. */
  lemma {:induction false} ValidAddressesAreTokens(p: AddressParsers, tokens: seq<string>)
    requires forall i :: 0 <= i < |tokens| ==> tokens[i] != "" && NoSpace(tokens[i])
    ensures forall i :: 0 <= i < |ValidAddresses(p, tokens)| ==>
              ValidAddresses(p, tokens)[i] != "" && NoSpace(ValidAddresses(p, tokens)[i]) && ValidAddress(p, ValidAddresses(p, tokens)[i])
    decreases |tokens|
  {
    if tokens != [] {
      ValidAddressesAreTokens(p, tokens[..|tokens| - 1]);
    }
  }

  /** `parseIPList` returns a normalised list: splitting its result at
      white space gives exactly the valid addresses of the input, in order. */
  lemma ParsedIPListFields(list: string, p: AddressParsers)
    ensures Fields(ParsedIPList(list, p)) == if WellFormedList(list) then ValidAddresses(p, Fields(list)) else []
  {
    if WellFormedList(list) {
      ValidAddressesAreTokens(p, Fields(list));
      FieldsJoin(ValidAddresses(p, Fields(list)));
    } else {
      assert Fields("") == [];
    }
  }

  /** The result is rejected outright exactly when the list is blank or has
      leading or trailing white space. */
  lemma ParsedIPListRejects(list: string, p: AddressParsers)
    ensures (list == "" || AllSpace(list) || IsSpace(list[0]) || IsSpace(list[|list| - 1])) ==> ParsedIPList(list, p) == ""
    ensures WellFormedList(list) && (exists i :: 0 <= i < |Fields(list)| && ValidAddress(p, Fields(list)[i])) ==> ParsedIPList(list, p) != ""
  {
    if WellFormedList(list) && exists i :: 0 <= i < |Fields(list)| && ValidAddress(p, Fields(list)[i]) {
      var i :| 0 <= i < |Fields(list)| && ValidAddress(p, Fields(list)[i]);
      var t := Fields(list)[i];
      ValidAddressesExact(p, Fields(list), t);
      assert t in multiset(Fields(list));
      assert t in ValidAddresses(p, Fields(list));
      ParsedIPListFields(list, p);
      if ParsedIPList(list, p) == "" {
        assert Fields("") == [];
      }
    }
  }

  /** Joining a list with a single space: its first character is that of
      its first part, its last that of its last part. */
  lemma {:induction false} JoinEnds(tokens: seq<string>)
    requires |tokens| > 0
    requires forall i :: 0 <= i < |tokens| ==> tokens[i] != ""
    ensures var s := Join(tokens, " ");
            |s| > 0 && s[0] == tokens[0][0] && s[|s| - 1] == tokens[|tokens| - 1][|tokens[|tokens| - 1]| - 1]
    decreases |tokens|
  {
    if |tokens| > 1 {
      JoinEnds(tokens[1..]);
    }
  }

  /** A list that is already normalised, and holds only valid addresses,
      is returned unchanged. */
  lemma NormalisedListUnchanged(tokens: seq<string>, p: AddressParsers)
    requires |tokens| > 0
    requires forall i :: 0 <= i < |tokens| ==> tokens[i] != "" && NoSpace(tokens[i]) && ValidAddress(p, tokens[i])
    ensures ParsedIPList(Join(tokens, " "), p) == Join(tokens, " ")
  {
    var list := Join(tokens, " ");
    JoinEnds(tokens);
    assert !IsSpace(list[0]) by { assert NoSpace(tokens[0]); }
    var last := tokens[|tokens| - 1];
    assert !IsSpace(list[|list| - 1]) by { assert NoSpace(last); }
    FieldsJoin(tokens);
    AllValidKept(p, tokens);
  }

  lemma {:induction false} AllValidKept(p: AddressParsers, tokens: seq<string>)
    requires forall i :: 0 <= i < |tokens| ==> ValidAddress(p, tokens[i])
    ensures ValidAddresses(p, tokens) == tokens
    decreases |tokens|
  {
    if tokens != [] {
      AllValidKept(p, tokens[..|tokens| - 1]);
    }
  }

  /** Normalising twice is normalising once. */
  lemma ParsedIPListIdempotent(list: string, p: AddressParsers)
    ensures ParsedIPList(ParsedIPList(list, p), p) == ParsedIPList(list, p)
  {
    var r := ParsedIPList(list, p);
    if WellFormedList(list) && ValidAddresses(p, Fields(list)) != [] {
      ValidAddressesAreTokens(p, Fields(list));
      NormalisedListUnchanged(ValidAddresses(p, Fields(list)), p);
    } else if WellFormedList(list) {
      assert r == "";
    }
  }

  // ---------------------------------------------------------------------
  // clipHAProxyTimeoutValue
  // ---------------------------------------------------------------------

  /** The outcome of `haproxytime.ParseDuration`, whose implementation is
      not part of this model: a duration, or one of its errors. */
  datatype DurationParse = Parsed(duration: int) | OverflowError | SyntaxError | OtherError

  /** `templateutil.HaproxyMaxTimeout`, `HaproxyMaxTimeoutDuration` and
      `HaproxyDefaultTimeout`, whose values are not part of this model. */
  datatype TimeoutLimits = TimeoutLimits(maxTimeout: string, maxDuration: int, defaultTimeout: string)

  /** `clipHAProxyTimeoutValue`: the value itself when it is empty or a
      duration HAProxy accepts, the maximum literal when it is too long,
      nothing when it does not parse, the default on any other error. */
  function ClipTimeout(val: string, parse: string -> DurationParse, limits: TimeoutLimits): (r: string)
    ensures r == "" || r == val || r == limits.maxTimeout || r == limits.defaultTimeout
  {
    if |val| == 0 then val
    else
      match parse(val)
      case Parsed(d) => if d > limits.maxDuration then limits.maxTimeout else val
      case OverflowError => limits.maxTimeout
      case SyntaxError => ""
      case OtherError => limits.defaultTimeout
  }

  /** The four outcomes: an empty or acceptable value is kept, a value that
      overflows or exceeds the maximum is clipped to the maximum literal, a
      syntax error gives nothing and any other error the default. */
  lemma ClipKeepsAcceptableValue(val: string, parse: string -> DurationParse, limits: TimeoutLimits)
    ensures val == "" ==> ClipTimeout(val, parse, limits) == ""
    ensures val != "" && parse(val).Parsed? && parse(val).duration <= limits.maxDuration ==> ClipTimeout(val, parse, limits) == val
    ensures val != "" && (parse(val).OverflowError? || (parse(val).Parsed? && parse(val).duration > limits.maxDuration)) ==>
              ClipTimeout(val, parse, limits) == limits.maxTimeout
    ensures val != "" && parse(val).SyntaxError? ==> ClipTimeout(val, parse, limits) == ""
    ensures val != "" && parse(val).OtherError? ==> ClipTimeout(val, parse, limits) == limits.defaultTimeout
  {
  }

  /** The limits agree with the parser: the maximum literal parses to the
      maximum duration and the default literal to a duration within it. */
  predicate ConsistentLimits(parse: string -> DurationParse, limits: TimeoutLimits)
  {
    && limits.maxTimeout != "" && parse(limits.maxTimeout) == Parsed(limits.maxDuration)
    && limits.defaultTimeout != "" && parse(limits.defaultTimeout).Parsed?
    && parse(limits.defaultTimeout).duration <= limits.maxDuration
  }

  /** Clipping never yields a timeout HAProxy would refuse: the result is
      empty or parses to a duration no greater than the maximum. */
  lemma ClipWithinLimit(val: string, parse: string -> DurationParse, limits: TimeoutLimits)
    requires ConsistentLimits(parse, limits)
    ensures var r := ClipTimeout(val, parse, limits);
            r == "" || (parse(r).Parsed? && parse(r).duration <= limits.maxDuration)
  {
  }

  /** Clipping a clipped value changes nothing. */
  lemma ClipIdempotent(val: string, parse: string -> DurationParse, limits: TimeoutLimits)
    requires ConsistentLimits(parse, limits)
    ensures ClipTimeout(ClipTimeout(val, parse, limits), parse, limits) == ClipTimeout(val, parse, limits)
  {
    ClipWithinLimit(val, parse, limits);
  }
}
