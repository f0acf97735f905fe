/** Generation of HAProxy map files from the route table:
    `backendConfig`, `generateHAProxyCertConfigMap`, `generateHAProxyMap`,
    and the allowlist file path and contents of
    `generateHAProxyAllowlistFile`. */
module HAProxyMaps {
  import opened RouterTypes
  import opened Strings
  import opened Collections

  /** The reserved name of the certificate map. */
  const CertConfigMapName := "cert_config.map"

  /** The ALPN hint: "h2" is HTTP/2 over TLS (section 3.1 of RFC 7540),
      then HTTP/1.1. */
  const AlpnToken := "[alpn h2,http/1.1]"

  /** The anchor pattern `generateHAProxyMap` hands to the path sorter. */
  const MapPathsAnchor := "^[^\\.]*\\."

  /** Code the map generator calls but that is not part of this model:
      `generateCertKey`, `haproxyutil.GenerateMapEntry`, `path.Join` of
      three elements, the `certDir` constant and `templateutil.SortMapPaths`. */
  datatype MapCollaborators = MapCollaborators(
    certKey: Alias -> string,
    mapEntry: (string, BackendConfig) -> Option<MapEntry>,
    pathJoin: (string, string, string) -> string,
    certDir: string,
    sortMapPaths: (seq<string>, string) -> seq<string>)

  /** `backendConfig`: what the map-entry encoder is told about an alias. */
  function BackendConfigOf(name: string, cfg: Alias, hasCert: bool): (b: BackendConfig)
    ensures b.name == name && b.hasCertificate == hasCert
    ensures b.host == cfg.host && b.path == cfg.path && b.isWildcard == cfg.isWildcard
    ensures b.termination == cfg.termination && b.insecurePolicy == cfg.insecurePolicy
  {
    BackendConfig(name, cfg.host, cfg.path, cfg.isWildcard, cfg.termination, cfg.insecurePolicy, hasCert)
  }

  /** The encoder sees only an alias's routing fields: two aliases give the
      same backend description exactly when they agree on host, path,
      wildcard flag, termination and insecure policy. */
  lemma BackendConfigSeesRoutingFields(name: string, a1: Alias, a2: Alias, hasCert: bool)
    ensures BackendConfigOf(name, a1, hasCert) == BackendConfigOf(name, a2, hasCert) <==>
            (a1.host == a2.host && a1.path == a2.path && a1.isWildcard == a2.isWildcard
             && a1.termination == a2.termination && a1.insecurePolicy == a2.insecurePolicy)
  {
  }

  // ---------------------------------------------------------------------
  // Certificate map
  // ---------------------------------------------------------------------

  /** The certificate an alias is served with, and whether it counts as
      present: an alias without a host, or without a certificate under its
      certificate key, has the zero certificate; a certificate is present
      when it is found and has contents. */
  function SelectedCertificate(cfg: Alias, c: MapCollaborators): (Certificate, bool)
  {
    if |cfg.host| > 0 then
      var certKey := c.certKey(cfg);
      if certKey in cfg.certificates then
        (cfg.certificates[certKey], |cfg.certificates[certKey].contents| > 0)
      else (ZeroCertificate, false)
    else (ZeroCertificate, false)
  }

  /** One line of the certificate map, before it is written out. */
  datatype CertMapLine = CertMapLine(certPath: string, alpn: bool, value: string)
  {
    /** Fields joined by single spaces, the ALPN hint between path and value. */
    function Text(): string
    {
      if alpn then certPath + " " + AlpnToken + " " + value else certPath + " " + value
    }
  }

  /** Whether the line for an alias advertises HTTP/2: not when HTTP/2 is
      disabled globally, and not when more than one alias uses the same
      certificate contents. */
  predicate AdvertisesAlpn(td: TemplateData, cert: Certificate)
  {
    !(td.disableHTTP2 || CountAt(td.certificateIndex, cert.contents) > 1)
  }

  /** The certificate-map line of alias `k`, if the encoder gives it an entry. */
  function CertMapLineFor(td: TemplateData, c: MapCollaborators, k: AliasKey, cfg: Alias): Option<CertMapLine>
  {
    var (cert, hasCert) := SelectedCertificate(cfg, c);
    match c.mapEntry(CertConfigMapName, BackendConfigOf(k, cfg, hasCert))
    case None => None
    case Some(e) => Some(CertMapLine(c.pathJoin(td.workingDir, c.certDir, e.key), AdvertisesAlpn(td, cert), e.value))
  }

  /** The line each alias contributes to the certificate map; aliases
      without an entry are absent. */
  function CertMapLines(td: TemplateData, c: MapCollaborators): (m: map<AliasKey, string>)
    ensures m.Keys <= td.state.Keys
  {
    map k | k in td.state && CertMapLineFor(td, c, k, td.state[k]).Some? :: CertMapLineFor(td, c, k, td.state[k]).value.Text()
  }

  /** What `generateHAProxyCertConfigMap` promises: one line per alias that
      has an entry, and the lines in non-increasing order. */
  ghost predicate IsCertConfigMap(td: TemplateData, c: MapCollaborators, lines: seq<string>)
  {
    Enumerates(CertMapLines(td, c), td.state.Keys, lines) && SortedDesc(lines)
  }

  /** The body of the loop of `generateHAProxyCertConfigMap` for one alias:
      its line, or nothing when the encoder gives it no entry. */
  method CertMapLineOf(td: TemplateData, c: MapCollaborators, k: AliasKey, cfg: Alias) returns (line: Option<string>)
    ensures line.Some? <==> CertMapLineFor(td, c, k, cfg).Some?
    ensures line.Some? ==> line.value == CertMapLineFor(td, c, k, cfg).value.Text()
  {
    var hasCert := false;
    var cert := ZeroCertificate;
    if |cfg.host| > 0 {
      var certKey := c.certKey(cfg);
      var ok := certKey in cfg.certificates;
      cert := if ok then cfg.certificates[certKey] else ZeroCertificate;
      hasCert := ok && |cert.contents| > 0;
    }
    var backend := BackendConfigOf(k, cfg, hasCert);
    var entry := c.mapEntry(CertConfigMapName, backend);
    if entry.None? {
      return None;
    }
    var fqCertPath := c.pathJoin(td.workingDir, c.certDir, entry.value.key);
    if td.disableHTTP2 || CountAt(td.certificateIndex, cert.contents) > 1 {
      line := Some(fqCertPath + " " + entry.value.value);
    } else {
      line := Some(fqCertPath + " " + AlpnToken + " " + entry.value.value);
    }
  }

  /** `generateHAProxyCertConfigMap`. */
  method CertConfigMap(td: TemplateData, c: MapCollaborators) returns (lines: seq<string>)
    ensures IsCertConfigMap(td, c, lines)
  {
    ghost var m := CertMapLines(td, c);
    var collected: seq<string> := [];
    var remaining := td.state.Keys;
    ghost var order: seq<AliasKey> := [];
    while remaining != {}
      invariant remaining <= td.state.Keys
      invariant NoDuplicates(order)
      invariant forall x :: x in order <==> x in td.state.Keys && x !in remaining
      invariant collected == LinesOf(m, order)
      decreases remaining
    {
      var k :| k in remaining;
      var line := CertMapLineOf(td, c, k, td.state[k]);
      LinesOfSnoc(m, order, k);
      if line.Some? {
        collected := collected + [line.value];
      }
      order := order + [k];
      remaining := remaining - {k};
    }
    LinesOfEnumerates(m, td.state.Keys, order);
    lines := SortDesc(collected);
    EnumeratesPermutation(m, td.state.Keys, collected, lines);
  }

  /** The certificate map does not depend on the order in which the route
      table was visited: whatever two runs produce is the same list. */
  lemma CertConfigMapDeterministic(td: TemplateData, c: MapCollaborators, l1: seq<string>, l2: seq<string>)
    requires IsCertConfigMap(td, c, l1) && IsCertConfigMap(td, c, l2)
    ensures l1 == l2
  {
    EnumeratesSameElements(CertMapLines(td, c), td.state.Keys, l1, l2);
    SortedDescUnique(l1, l2);
  }

  /** Every alias with an entry has its line in the map, and every line of
      the map is the line of some alias. */
  lemma CertConfigMapLines(td: TemplateData, c: MapCollaborators, lines: seq<string>)
    requires IsCertConfigMap(td, c, lines)
    ensures |lines| == |CertMapLines(td, c)|
    ensures forall k :: k in CertMapLines(td, c) ==> CertMapLines(td, c)[k] in lines
    ensures forall i :: 0 <= i < |lines| ==> exists k :: k in CertMapLines(td, c) && CertMapLines(td, c)[k] == lines[i]
  {
    var m := CertMapLines(td, c);
    EnumeratesMembers(m, td.state.Keys, lines);
    assert td.state.Keys * m.Keys == m.Keys;
  }

  /** An alias has a certificate-map line exactly when the encoder gives it
      an entry; the line starts with the joined certificate path (working
      directory, certificate directory, entry key), ends with the entry
      value, and carries the ALPN hint exactly when HTTP/2 is enabled and
      the index counts at most one use of the alias's certificate contents.
      Without a host, or without a certificate under its key, the
      certificate looked up is the zero certificate; a certificate counts as
      present only when it is found and has contents. */
  lemma CertMapLineShape(td: TemplateData, c: MapCollaborators, k: AliasKey)
    requires k in td.state
    ensures var cfg := td.state[k];
            var cert := SelectedCertificate(cfg, c).0;
            var entry := c.mapEntry(CertConfigMapName, BackendConfigOf(k, cfg, SelectedCertificate(cfg, c).1));
            && (k in CertMapLines(td, c) <==> entry.Some?)
            && (|cfg.host| == 0 || c.certKey(cfg) !in cfg.certificates ==> cert == ZeroCertificate)
            && (SelectedCertificate(cfg, c).1 <==>
                  |cfg.host| > 0 && c.certKey(cfg) in cfg.certificates && |cfg.certificates[c.certKey(cfg)].contents| > 0)
            && (k in CertMapLines(td, c) ==>
                  var line := CertMapLines(td, c)[k];
                  var path := c.pathJoin(td.workingDir, c.certDir, entry.value.key);
                  var withAlpn := !td.disableHTTP2 && CountAt(td.certificateIndex, cert.contents) <= 1;
                  && line[..|path| + 1] == path + " "
                  && line[|line| - |entry.value.value|..] == entry.value.value
                  && line == path + " " + (if withAlpn then AlpnToken + " " else "") + entry.value.value)
  {
  }

  /** The aliases whose selected certificate has `contents`. */
  ghost function SharingAliases(td: TemplateData, c: MapCollaborators, contents: string): set<AliasKey>
  {
    set k | k in td.state && SelectedCertificate(td.state[k], c).0.contents == contents
  }

  /** When the certificate index counts every alias using a certificate,
      two aliases that share certificate contents both lose the ALPN hint. */
  lemma SharedCertificateSuppressesAlpn(td: TemplateData, c: MapCollaborators, k1: AliasKey, k2: AliasKey)
    requires k1 in td.state && k2 in td.state && k1 != k2
    requires SelectedCertificate(td.state[k1], c).0 == SelectedCertificate(td.state[k2], c).0
    requires var x := SelectedCertificate(td.state[k1], c).0.contents;
             |SharingAliases(td, c, x)| <= CountAt(td.certificateIndex, x)
    ensures !AdvertisesAlpn(td, SelectedCertificate(td.state[k1], c).0)
    ensures !AdvertisesAlpn(td, SelectedCertificate(td.state[k2], c).0)
  {
    var x := SelectedCertificate(td.state[k1], c).0.contents;
    assert {k1, k2} <= SharingAliases(td, c, x);
    assert |{k1, k2}| == 2;
    SubsetCardinality({k1, k2}, SharingAliases(td, c, x));
  }

  /** When HTTP/2 is enabled and the certificate index is exact, an alias
      whose certificate contents no other alias uses keeps the ALPN hint. */
  lemma ExclusiveCertificateKeepsAlpn(td: TemplateData, c: MapCollaborators, k: AliasKey)
    requires k in td.state && !td.disableHTTP2
    requires var x := SelectedCertificate(td.state[k], c).0.contents;
             CountAt(td.certificateIndex, x) <= |SharingAliases(td, c, x)|
    requires forall j :: j in td.state && j != k ==>
               SelectedCertificate(td.state[j], c).0 != SelectedCertificate(td.state[k], c).0
    ensures AdvertisesAlpn(td, SelectedCertificate(td.state[k], c).0)
  {
    var x := SelectedCertificate(td.state[k], c).0.contents;
    assert SharingAliases(td, c, x) == {k};
  }

  lemma SubsetCardinality(a: set<AliasKey>, b: set<AliasKey>)
    requires a <= b
    ensures |a| <= |b|
  {
    assert b == a + (b - a);
  }

  // ---------------------------------------------------------------------
  // Named maps
  // ---------------------------------------------------------------------

  /** The `"key value"` line each alias contributes to the map `name`. */
  function NamedMapLines(name: string, td: TemplateData, c: MapCollaborators): (m: map<AliasKey, string>)
    ensures m.Keys <= td.state.Keys
  {
    map k | k in td.state && c.mapEntry(name, BackendConfigOf(k, td.state[k], false)).Some? ::
      var e := c.mapEntry(name, BackendConfigOf(k, td.state[k], false)).value;
      e.key + " " + e.value
  }

  /** What `generateHAProxyMap` promises: the certificate map for the
      reserved name; otherwise the path sorter applied to one `"key value"`
      line per alias with an entry, collected in some order. */
  ghost predicate IsHAProxyMap(name: string, td: TemplateData, c: MapCollaborators, lines: seq<string>)
  {
    if name == CertConfigMapName then IsCertConfigMap(td, c, lines)
    else exists collected :: Enumerates(NamedMapLines(name, td, c), td.state.Keys, collected)
                             && lines == c.sortMapPaths(collected, MapPathsAnchor)
  }

  /** `generateHAProxyMap`. */
  method HAProxyMap(name: string, td: TemplateData, c: MapCollaborators) returns (lines: seq<string>)
    ensures IsHAProxyMap(name, td, c, lines)
  {
    if name == CertConfigMapName {
      lines := CertConfigMap(td, c);
      return;
    }
    ghost var m := NamedMapLines(name, td, c);
    var collected: seq<string> := [];
    var remaining := td.state.Keys;
    ghost var order: seq<AliasKey> := [];
    while remaining != {}
      invariant remaining <= td.state.Keys
      invariant NoDuplicates(order)
      invariant forall x :: x in order <==> x in td.state.Keys && x !in remaining
      invariant collected == LinesOf(m, order)
      decreases remaining
    {
      var k :| k in remaining;
      var backend := BackendConfigOf(k, td.state[k], false);
      var entry := c.mapEntry(name, backend);
      LinesOfSnoc(m, order, k);
      if entry.Some? {
        collected := collected + [entry.value.key + " " + entry.value.value];
      }
      order := order + [k];
      remaining := remaining - {k};
    }
    LinesOfEnumerates(m, td.state.Keys, order);
    lines := c.sortMapPaths(collected, MapPathsAnchor);
  }

  /** A sorter whose output depends only on which lines it is given. */
  ghost predicate OrderInsensitive(sort: (seq<string>, string) -> seq<string>)
  {
    forall a, b, p :: multiset(a) == multiset(b) ==> sort(a, p) == sort(b, p)
  }

  /** A named map is independent of the route table's iteration order as
      long as the path sorter is: the collected lines always have the same
      elements, and only their order can differ. */
  lemma HAProxyMapDeterministic(name: string, td: TemplateData, c: MapCollaborators, l1: seq<string>, l2: seq<string>)
    requires OrderInsensitive(c.sortMapPaths)
    requires IsHAProxyMap(name, td, c, l1) && IsHAProxyMap(name, td, c, l2)
    ensures l1 == l2
  {
    if name == CertConfigMapName {
      CertConfigMapDeterministic(td, c, l1, l2);
    } else {
      var m := NamedMapLines(name, td, c);
      var c1 :| Enumerates(m, td.state.Keys, c1) && l1 == c.sortMapPaths(c1, MapPathsAnchor);
      var c2 :| Enumerates(m, td.state.Keys, c2) && l2 == c.sortMapPaths(c2, MapPathsAnchor);
      EnumeratesSameElements(m, td.state.Keys, c1, c2);
    }
  }

  // ---------------------------------------------------------------------
  // Allowlist files
  // ---------------------------------------------------------------------

  /** The file `generateHAProxyAllowlistFile` writes: the valid entries of
      the allowlist, one per line, each line ended by a newline. */
  function AllowlistContents(cidrs: seq<string>): (data: string)
    ensures |data| > 0 && data[|data| - 1] == '\n'
    ensures data[..|data| - 1] == Join(cidrs, "\n")
  {
    Join(cidrs, "\n") + "\n"
  }

  /** Reading the allowlist file back line by line gives the entries, then
      the empty remainder after the last newline; with no valid entry the
      file is a single newline, which reads back as two empty lines. */
  lemma AllowlistContentsLines(cidrs: seq<string>)
    requires forall i :: 0 <= i < |cidrs| ==> '\n' !in cidrs[i]
    ensures cidrs == [] ==> AllowlistContents(cidrs) == "\n"
    ensures Split(AllowlistContents(cidrs), '\n') == if cidrs == [] then ["", ""] else cidrs + [""]
  {
    if cidrs == [] {
      assert AllowlistContents(cidrs) == "\n";
      SplitJoin(["", ""], '\n');
      assert Join(["", ""], "\n") == "\n";
    } else {
      JoinAppendEmpty(cidrs, "\n");
      SplitJoin(cidrs + [""], '\n');
    }
  }

  lemma {:induction false} JoinAppendEmpty(parts: seq<string>, sep: string)
    requires |parts| > 0
    ensures Join(parts + [""], sep) == Join(parts, sep) + sep
    decreases |parts|
  {
    if |parts| == 1 {
      assert parts + [""] == [parts[0], ""];
      assert Join([parts[0], ""], sep) == parts[0] + sep + Join([""], sep);
    } else {
      assert (parts + [""])[1..] == parts[1..] + [""];
      JoinAppendEmpty(parts[1..], sep);
    }
  }

  /** `generateHAProxyAllowlistFile` without the file system: the file name,
      `<workingDir>/<allowlistDir>/<id>.txt`, when the write succeeds, and
      the empty string when it fails. */
  function AllowlistFile(
    workingDir: string, id: AliasKey, value: string,
    allowlistDir: string,
    pathJoin: (string, string, string) -> string,
    validateAllowlist: string -> (seq<string>, bool),
    writeFile: (string, string) -> bool): (r: string)
    ensures r == "" || r == pathJoin(workingDir, allowlistDir, id + ".txt")
    ensures r != "" ==> writeFile(r, AllowlistContents(validateAllowlist(value).0))
    ensures writeFile(pathJoin(workingDir, allowlistDir, id + ".txt"), AllowlistContents(validateAllowlist(value).0)) ==>
              r == pathJoin(workingDir, allowlistDir, id + ".txt")
    ensures !writeFile(pathJoin(workingDir, allowlistDir, id + ".txt"), AllowlistContents(validateAllowlist(value).0)) ==>
              r == ""
  {
    var name := pathJoin(workingDir, allowlistDir, id + ".txt");
    var cidrs := validateAllowlist(value).0;
    if writeFile(name, AllowlistContents(cidrs)) then name else ""
  }
}
