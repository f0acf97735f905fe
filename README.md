# Template helpers of the OpenShift HAProxy router, in Dafny

The OpenShift router renders its HAProxy configuration from a Go text
template. The template calls a set of helper functions,
`pkg/router/template/template_helper.go`, that turn the router's route
table into configuration text. This project models those helpers and
proves what they promise:

- **Host grouping.** `getHTTPAliasesGroupedByHost` buckets the
  non-passthrough aliases (route bindings) by host.
- **Primary alias.** `getPrimaryAliasKey` picks one primary alias per
  host. That is the greatest key among the edge and reencrypt aliases, or
  the greatest key overall when none terminates TLS.
- **Certificate map.** `generateHAProxyCertConfigMap` writes one line per
  alias that the map-entry encoder accepts. Each line is the certificate
  path, an optional ALPN hint and the entry value. The lines come out in
  non-increasing order.
- **Named maps.** `generateHAProxyMap` writes `"key value"` lines and
  hands them to the path sorter. The allowlist file writer builds the file
  name and the file contents.
- **Endpoints.** `endpointsForAlias` selects the endpoints that serve a
  route's preferred port. `processEndpointsForAlias` optionally
  Fisher-Yates shuffles them in place.
- **Annotation normalisers.** `indent` pads lines. `parseIPList`
  normalises an IP/CIDR list. `clipHAProxyTimeoutValue` clips a timeout
  to HAProxy's range.
- **String predicates.** `firstMatch`, `matchPattern`, `matchValues` and
  `env` are the template's string tests, and `genSubdomainWildcardRegexp`
  builds the wildcard host pattern.

## How the model is organised

The modules follow the helpers:

| module | contents |
|---|---|
| `RouterTypes` | route bindings (`Alias`), certificates, endpoints, `TemplateData`, `BackendConfig`, map entries |
| `Strings` | Go's string order, sorting, `strings.Split` and `Join`, `unicode.IsSpace`, `TrimSpace`, `Fields` |
| `Collections` | order-free descriptions of what a loop over a Go map collects; subsequences |
| `AliasGroups` | grouping by host, and the primary alias |
| `HAProxyMaps` | backend configs, the certificate map, named maps, the allowlist file |
| `Endpoints` | endpoint selection and shuffling |
| `Annotations` | `indent`, `parseIPList`, timeout clipping |
| `Matching` | regular-expression and value matching, `env`, the subdomain wildcard pattern |

Go loops become Dafny `while` or `for` loops with invariants; the
in-place slice updates of `indent` and of the shuffle work on arrays.

Go's map iteration order is unspecified. A loop over `td.State` or over
an alias map is therefore modelled as picking any remaining key at each
step (`var k :| k in remaining`). Results are stated without reference
to that order:

- The certificate map is stated by how often each line occurs
  (`Collections.Enumerates`), which no iteration order changes.
- Because its lines are then sorted, the map is the same list whichever
  order was taken (`HAProxyMaps.CertConfigMapDeterministic`).

`sort.Sort(sort.Reverse(sort.StringSlice(...)))` is modelled by a sort
on sequences (`Strings.SortDesc`). The model proves that result's
order and element counts, not the library's algorithm. Go compares
strings byte by byte; on UTF-8 text this equals the order of code points
used here (`Strings.LexLe`).

Calls into code outside `template_helper.go` become function-valued parameters. These are:

- `generateCertKey`, `haproxyutil.GenerateMapEntry`,
  `templateutil.SortMapPaths` and `path.Join`;
- `haproxytime.ParseDuration`, `net.ParseIP` and `net.ParseCIDR`;
- the `regexp` engine and `routeapihelpers.GetDomainForHost`;
- `haproxyutil.ValidateAllowlist`, `ioutil.WriteFile` and `os.Getenv`.

The values of `certDir`, `allowlistDir`, `HaproxyMaxTimeout`,
`HaproxyMaxTimeoutDuration` and `HaproxyDefaultTimeout` are defined in
files that are not part of this model, so they are parameters too.

## Model

| member | source | states |
|---|---|---|
| `AliasGroups.GroupByHost` | pkg/router/template/template_helper.go:254-269 | every non-passthrough alias is in the bucket of its own host under its own key; every bucket entry is such an alias; no bucket is empty |
| `AliasGroups.GroupedExactly` | pkg/router/template/template_helper.go:257-266 | visiting the aliases once each, in any order, produces exactly that grouping |
| `AliasGroups.PrimaryAliasKey` | pkg/router/template/template_helper.go:278-303 | "" for no aliases; the only key for one alias; otherwise the greatest terminating (edge or reencrypt) key, or the greatest key when none terminates; the `len(aliases)` empty placeholders in the key list never change the answer |
| `AliasGroups.PrefilledKeys` | pkg/router/template/template_helper.go:289-292 | the key list holds `len(aliases)` empty strings followed by every alias key |
| `AliasGroups.ScanForPrimary` | pkg/router/template/template_helper.go:296-302 | over a descending list covering the group, the first terminating key, or else the head, is the primary key |
| `AliasGroups.FirstTerminatingIsPrimary` | pkg/router/template/template_helper.go:296-300 | in descending order the first edge/reencrypt key is the greatest such key |
| `AliasGroups.GreatestIsPrimary` | pkg/router/template/template_helper.go:302 | with no terminating key, the head of the descending list is the greatest key |
| `AliasGroups.PrimaryKeyUnique` | pkg/router/template/template_helper.go:271-277 | the described primary alias is unique |
| `Strings.SortDesc` | pkg/router/template/template_helper.go:230 | the result is in non-increasing string order and has the same elements with the same counts |
| `Strings.SortedDescUnique` | pkg/router/template/template_helper.go:230 | two non-increasing lists with the same elements are equal, so the sorted output does not depend on input order |
| `Strings.LexLeTotal` | pkg/router/template/template_helper.go:294 | string order is total, so every pair of keys is comparable |
| `Strings.LexLeAntisymmetric` | pkg/router/template/template_helper.go:294 | string order is antisymmetric |
| `Strings.LexLeTransitive` | pkg/router/template/template_helper.go:294 | string order is transitive |
| `Strings.SplitJoin` | pkg/router/template/template_helper.go:418-428 | splitting a join at a separator no part contains gives the parts back |
| `Strings.JoinSplit` | pkg/router/template/template_helper.go:418-428 | joining the pieces of a split with the same separator gives the string back |
| `Strings.TrimSpaceEmpty` | pkg/router/template/template_helper.go:368-372 | trimming gives "" exactly when the string is all white space |
| `Strings.TrimSpaceUnchanged` | pkg/router/template/template_helper.go:374-378 | trimming leaves the string unchanged exactly when it is empty or starts and ends with a non-space |
| `Strings.FieldsJoin` | pkg/router/template/template_helper.go:382-403 | splitting a single-space join of non-empty, blank-free tokens at white space gives the tokens back |
| `Collections.LinesOfEnumerates` | pkg/router/template/template_helper.go:207-227 | visiting each map key once, in any order, collects each key's line exactly once and nothing else |
| `Collections.EnumeratesMembers` | pkg/router/template/template_helper.go:219-226 | every collected line is some key's line, and every key's line is collected |
| `HAProxyMaps.BackendConfigOf` | pkg/router/template/template_helper.go:193-203 | the backend description carries the given name and certificate flag and the alias's host, path, wildcard flag, termination and insecure policy |
| `HAProxyMaps.BackendConfigSeesRoutingFields` | pkg/router/template/template_helper.go:193-203 | the backend description depends on exactly the alias's host, path, wildcard flag, termination and insecure policy |
| `HAProxyMaps.CertMapLineOf` | pkg/router/template/template_helper.go:208-226 | one iteration of the certificate map loop gives the alias's line exactly when the encoder gives it an entry |
| `HAProxyMaps.CertConfigMap` | pkg/router/template/template_helper.go:206-232 | one line per alias with an entry, nothing else, in non-increasing order |
| `HAProxyMaps.CertConfigMapDeterministic` | pkg/router/template/template_helper.go:207-230 | the certificate map is the same list whatever order the route table is visited in |
| `HAProxyMaps.CertConfigMapLines` | pkg/router/template/template_helper.go:219-226 | there are as many lines as aliases with an entry; each such alias's line is present, and each line belongs to one |
| `HAProxyMaps.CertMapLineShape` | pkg/router/template/template_helper.go:211-226 | the line is `path.Join(workingDir, certDir, key)`, then `[alpn h2,http/1.1]` exactly when HTTP/2 is enabled and the index counts the certificate at most once, then the entry value; without a host or without a certificate under the certificate key the zero certificate is looked up; the alias has a certificate exactly when one is found with contents |
| `HAProxyMaps.SharedCertificateSuppressesAlpn` | pkg/router/template/template_helper.go:222-223 | with the certificate index counting every user, two aliases sharing certificate contents both lose the ALPN hint |
| `HAProxyMaps.ExclusiveCertificateKeepsAlpn` | pkg/router/template/template_helper.go:222-225 | with HTTP/2 enabled and an exact index, an alias whose certificate nobody else uses keeps the ALPN hint |
| `HAProxyMaps.HAProxyMap` | pkg/router/template/template_helper.go:306-320 | the certificate map for the reserved name; otherwise the path sorter applied to one `"key value"` line per alias with an entry |
| `HAProxyMaps.HAProxyMapDeterministic` | pkg/router/template/template_helper.go:311-319 | a named map is independent of iteration order whenever the path sorter depends only on its input's elements |
| `HAProxyMaps.AllowlistContents` | pkg/router/template/template_helper.go:244 | the file data ends in a newline, and before it are the entries joined by newlines |
| `HAProxyMaps.AllowlistContentsLines` | pkg/router/template/template_helper.go:244 | reading the allowlist file back line by line gives the entries, then the empty line after the final newline; with no valid entry the file is a single newline, read back as two empty lines |
| `HAProxyMaps.AllowlistFile` | pkg/router/template/template_helper.go:241-251 | the joined file name when writing the entries succeeds, "" when it fails |
| `Endpoints.EndpointsForAlias` | pkg/router/template/template_helper.go:178-190 | the whole table when the route prefers no port; otherwise the endpoints whose port name or port is the preferred one, in table order |
| `Endpoints.MatchingSound` | pkg/router/template/template_helper.go:185 | every selected endpoint serves the preferred port |
| `Endpoints.MatchingComplete` | pkg/router/template/template_helper.go:183-188 | every endpoint serving the port is selected as often as it occurs in the table; no other is selected |
| `Endpoints.MatchingKeepsOrder` | pkg/router/template/template_helper.go:183-188 | the selection is a subsequence of the table |
| `Endpoints.MatchingAll` | pkg/router/template/template_helper.go:183-188 | when every endpoint serves the port the selection is the whole table |
| `Endpoints.ProcessEndpointsForAlias` | pkg/router/template/template_helper.go:167-176 | the selected endpoints, untouched unless the action is "shuffle" in any letter case, and always with the same elements and counts |
| `Endpoints.Shuffle` | pkg/router/template/template_helper.go:170-173 | the in-place swap loop permutes the array |
| `Endpoints.ToLower` | pkg/router/template/template_helper.go:169 | keeps the length, maps each ASCII capital to its small letter, leaves every other character |
| `Annotations.Indent` | pkg/router/template/template_helper.go:409-429 | "" and non-positive widths leave the input; otherwise the result has the input's lines, each non-empty one prefixed by the padding, empty ones kept empty |
| `Annotations.IndentBlankLines` | pkg/router/template/template_helper.go:421-425 | an input with no non-empty line is returned unchanged |
| `Annotations.IndentIsInvertible` | pkg/router/template/template_helper.go:421-428 | dropping the padding from the non-empty output lines and joining them gives the input back |
| `Annotations.ParseIPList` | pkg/router/template/template_helper.go:365-404 | "" for a blank list or one with leading or trailing white space; otherwise the valid IP/CIDR tokens in order, joined by single spaces |
| `Annotations.ValidAddressesExact` | pkg/router/template/template_helper.go:383-394 | a token is kept, as often as it occurs, exactly when it parses as an IP or CIDR |
| `Annotations.ValidAddressesInOrder` | pkg/router/template/template_helper.go:383-394 | the kept tokens keep the list's order |
| `Annotations.ParsedIPListFields` | pkg/router/template/template_helper.go:396-403 | the result splits at white space into exactly the valid tokens |
| `Annotations.ParsedIPListRejects` | pkg/router/template/template_helper.go:368-378 | blank or untrimmed lists give ""; a well-formed list with a valid token gives a non-empty result |
| `Annotations.NormalisedListUnchanged` | pkg/router/template/template_helper.go:365-404 | a single-space list of valid addresses is returned unchanged |
| `Annotations.ParsedIPListIdempotent` | pkg/router/template/template_helper.go:365-404 | normalising a normalised list changes nothing |
| `Annotations.ClipTimeout` | pkg/router/template/template_helper.go:331-361 | the result is "", the value itself, the maximum literal or the default literal |
| `Annotations.ClipKeepsAcceptableValue` | pkg/router/template/template_helper.go:334-360 | the four outcomes: empty or acceptable kept, overflow or too long clipped to the maximum, syntax error "", other error the default |
| `Annotations.ClipWithinLimit` | pkg/router/template/template_helper.go:331-361 | with consistent limits the result is "" or a duration no greater than HAProxy's maximum |
| `Annotations.ClipIdempotent` | pkg/router/template/template_helper.go:331-361 | clipping a clipped value changes nothing |
| `Matching.Anchored` | pkg/router/template/template_helper.go:73 | the pattern wrapped in `\A(?:` and `)\z` |
| `Matching.AnchoredInjective` | pkg/router/template/template_helper.go:120 | distinct patterns stay distinct once anchored |
| `Matching.MatchPattern` | pkg/router/template/template_helper.go:118-127 | true only when the anchored pattern compiles, and then exactly when it matches |
| `Matching.FirstMatch` | pkg/router/template/template_helper.go:71-85 | the first value the anchored pattern matches; "" when no value matches or it does not compile |
| `Matching.FirstMatchAtUnique` | pkg/router/template/template_helper.go:74-79 | the first match is at a unique position |
| `Matching.MatchValues` | pkg/router/template/template_helper.go:106-116 | true exactly when the string is one of the allowed values |
| `Matching.Env` | pkg/router/template/template_helper.go:87-99 | the non-empty variable, otherwise the first non-empty default; "" exactly when both are absent |
| `Matching.QuoteMeta` | pkg/router/template/template_helper.go:140 | quoting never shortens, and is empty exactly for the empty string |
| `Matching.UnquoteQuoteMeta` | pkg/router/template/template_helper.go:140 | unquoting a quoted string gives it back |
| `Matching.QuoteMetaLiteral` | pkg/router/template/template_helper.go:140 | a quoted string contains no unescaped metacharacter |
| `Matching.SubdomainWildcardRegexp` | pkg/router/template/template_helper.go:133-146 | host followed by path when the host has no subdomain; otherwise a pattern that starts with the label wildcard `^[^\.]*` and ends with `$`, and for an exact path everything between is a literal (fully quoted) pattern |
| `Matching.SubdomainWildcardForms` | pkg/router/template/template_helper.go:133-146 | without a subdomain both forms are host followed by path; otherwise both are `^[^\.]*` plus the quoted `.subdomain+path`, ending in `$` for an exact path or in an alternative that also admits sub-paths, and the quoted part reads back as `.subdomain+path` |

## Left out

- The regular-expression cache `cachedRegexpCompile`/`matchString` (a `sync.Map`): it changes performance, not results, so compiling is a pure function of the pattern here.
- Logging, the `helperFunctions` FuncMap registry, and the thin wrappers `isTrue`, `isInteger`, `validateHAProxyAllowlist`, `generateRouteRegexp`, `genCertificateHostName`, `GenerateBackendNamePrefix` and `SanitizeInput`: they only log, register or forward to library code outside this file.
- `Endpoints.ProcessEndpointsForAlias`: shuffles a fresh copy. The source swaps inside the slice `endpointsForAlias` returns, which is the service's own `EndpointTable` when no port is preferred, so the model does not capture that caller-visible mutation. The `math/rand` draws are a parameter, and only the permutation property is stated, not the distribution.
- `Endpoints.ToLower`: folds ASCII letters only; `strings.ToLower`'s Unicode folding matters only for non-ASCII action names, which never equal "shuffle".
- `Strings.SortDesc`: an insertion sort standing in for the library's `sort.Sort`; only the sorted order and element counts are modelled, not the library's algorithm.
- `HAProxyMaps.HAProxyMapDeterministic`: needs the assumption that `templateutil.SortMapPaths` depends only on which lines it receives, because that function is not part of this model.
- `HAProxyMaps.SharedCertificateSuppressesAlpn` and `HAProxyMaps.ExclusiveCertificateKeepsAlpn`: `CertificateIndex` is built elsewhere, so both lemmas assume that it counts the aliases using each certificate.
- `HAProxyMaps.AllowlistFile`: the file is written by the `writeFile` parameter, the file-system effect is not modelled, and the 0644 mode is not modelled.
- `path.Join`'s cleaning of `..` and duplicate slashes, `haproxytime.ParseDuration`, `net.ParseIP`/`ParseCIDR`, the regular-expression engine and `routeapihelpers.GetDomainForHost`: they belong to other packages and are parameters.
- `Matching.QuoteMeta`: written on characters; Go escapes bytes, and since the escaped characters are ASCII this is the same on UTF-8 text.
