/** The router's data model as the template helpers see it: route
    bindings (service alias configurations), certificates, endpoints and
    the per-render template data. Only the fields the helpers read are
    kept. */
module RouterTypes {

  datatype Option<T> = None | Some(value: T)

  /** A `ServiceAliasConfigKey`: the alias's unique identifier in the route table. */
  type AliasKey = string

  /** `routev1.TLSTerminationType`; the zero value (no termination) is `NoTermination`. */
  datatype Termination = NoTermination | Edge | Passthrough | Reencrypt

  /** `routev1.InsecureEdgeTerminationPolicyType`; passed through untouched. */
  datatype InsecurePolicy = PolicyUnset | PolicyNone | PolicyAllow | PolicyRedirect

  /** Identity for sharing purposes is the contents. */
  datatype Certificate = Certificate(contents: string)

  /** Go's zero `Certificate`. */
  const ZeroCertificate := Certificate("")

  /** `ServiceAliasConfig`: one host, path and TLS binding. */
  datatype Alias = Alias(
    host: string,
    path: string,
    isWildcard: bool,
    termination: Termination,
    insecurePolicy: InsecurePolicy,
    preferPort: string,
    certificates: map<string, Certificate>)

  /** Go's zero `ServiceAliasConfig`. */
  const ZeroAlias := Alias("", "", false, NoTermination, PolicyUnset, "", map[])

  /** Go's `m[k]` on a map of aliases: the zero alias for a missing key. */
  function AliasAt(m: map<string, Alias>, k: string): Alias
  {
    if k in m then m[k] else ZeroAlias
  }

  /** Go's `index[x]` on a `map[string]int`: zero for a missing key. */
  function CountAt(index: map<string, int>, x: string): int
  {
    if x in index then index[x] else 0
  }

  /** One backend target. */
  datatype Endpoint = Endpoint(id: string, ip: string, port: string, portName: string)

  /** The endpoints of one service, in the order the router stores them. */
  datatype ServiceUnit = ServiceUnit(name: string, endpointTable: seq<Endpoint>)

  /** `templateData`: the snapshot one render pass works on. */
  datatype TemplateData = TemplateData(
    workingDir: string,
    state: map<AliasKey, Alias>,
    certificateIndex: map<string, int>,
    disableHTTP2: bool)

  /** `haproxyutil.BackendConfig`: what the map-entry encoder is told about an alias. */
  datatype BackendConfig = BackendConfig(
    name: string,
    host: string,
    path: string,
    isWildcard: bool,
    termination: Termination,
    insecurePolicy: InsecurePolicy,
    hasCertificate: bool)

  /** `haproxyutil.HAProxyMapEntry`. */
  datatype MapEntry = MapEntry(key: string, value: string)
}
