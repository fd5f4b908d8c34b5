/** CycloneDX 1.5: the emitter, the validator, and exactly when the one accepts what the
    other prints. */
module CycloneDx {
  import opened Licenses
  import opened Models
  import opened Orders
  import opened Patterns
  import opened References
  import opened Resolve
  import Spdx

  const CDX_NAMESPACE := "1f36d2a7-5a1c-4f80-8b3a-9c1d2e3f4a5b"
  const URN_PREFIX := "urn:uuid:"

  datatype License = Id(id: string) | Expression(expression: string)

  datatype Tool = Tool(vendor: string, name: string, version: string)

  const SBOM_TOOL := Tool("SDMAS", "sdmas-sbom", "1.0.0")

  datatype Component = Component(
    kind: string,
    bomRef: string,
    name: string,
    version: string,
    purl: Option<string>,
    licenses: seq<License>,
    properties: seq<(string, string)>,
    hashes: seq<(string, string)>,
    externalReferences: seq<(string, string)>)

  datatype DependencyEntry = DependencyEntry(ref: string, dependsOn: seq<string>)

  datatype Document = Document(
    bomFormat: string,
    specVersion: string,
    serialNumber: string,
    version: int,
    timestamp: string,
    tools: seq<Tool>,
    rootKind: string,
    rootRef: string,
    rootName: string,
    rootVersion: string,
    components: seq<Component>,
    dependencies: seq<DependencyEntry>)

  // ---------- references ----------

  /** What a package's bom-ref is derived from. */
  function RefText(pkg: Package): string { pkg.Identity() + "|" + pkg.source }

  function RootText(rootName: string, rootVersion: string): string { "root:" + rootName + ":" + rootVersion }

  /** `_bom_ref` */
  function BomRef(lib: Library, pkg: Package): string { lib.uuid5(CDX_NAMESPACE, RefText(pkg)) }

  /** `_root_ref` */
  function RootRef(lib: Library, rootName: string, rootVersion: string): string {
    lib.uuid5(CDX_NAMESPACE, RootText(rootName, rootVersion))
  }

  function RefsOf(lib: Library, pkgs: seq<Package>): (refs: seq<string>)
    ensures |refs| == |pkgs| && forall i | 0 <= i < |pkgs| :: refs[i] == BomRef(lib, pkgs[i])
  {
    seq(|pkgs|, i requires 0 <= i < |pkgs| => BomRef(lib, pkgs[i]))
  }

  ghost function AllTexts(pkgs: seq<Package>, rootName: string, rootVersion: string): set<string> {
    {RootText(rootName, rootVersion)} + set p | p in pkgs :: RefText(p)
  }

  ghost predicate DistinctTexts(pkgs: seq<Package>) {
    forall i, j | 0 <= i < j < |pkgs| :: RefText(pkgs[i]) != RefText(pkgs[j])
  }

  ghost predicate RootTextFree(pkgs: seq<Package>, rootName: string, rootVersion: string) {
    forall p | p in pkgs :: RefText(p) != RootText(rootName, rootVersion)
  }

  // ---------- the document ----------

  /** `_license_entry`; empty where the source returns None. */
  function LicenseEntry(expr: Option<string>): seq<License> {
    if !Truthy(expr) || !IsValidExpression(expr.value) then []
    else if HasOperator(expr.value) then [Expression(expr.value)]
    else [Id(expr.value)]
  }

  function Upper(s: string): string {
    if s == "" then "" else [if 'a' <= s[0] <= 'z' then (s[0] as int - 32) as char else s[0]] + Upper(s[1..])
  }

  /** `_cdx_alg` */
  function CdxAlgorithm(algorithm: string): string {
    var up := Upper(algorithm);
    if up in {"SHA1", "SHA256", "SHA384", "SHA512"} then "SHA-" + up[3..] else up
  }

  function Hashes(checksums: seq<(string, string)>): (hs: seq<(string, string)>)
    ensures |hs| == |checksums|
    ensures forall k | 0 <= k < |hs| :: hs[k] == (CdxAlgorithm(checksums[k].0), checksums[k].1)
  {
    seq(|checksums|, k requires 0 <= k < |checksums| => (CdxAlgorithm(checksums[k].0), checksums[k].1))
  }

  function ComponentOf(lib: Library, pkg: Package): Component {
    var licenses := LicenseEntry(pkg.licenseExpression);
    Component("library", BomRef(lib, pkg), pkg.name, pkg.version,
              if Truthy(pkg.purl) then pkg.purl else None,
              licenses,
              if licenses == [] && Truthy(pkg.licenseExpression)
              then [("sdmas:license:original", pkg.licenseExpression.value)] else [],
              Hashes(pkg.checksums),
              if Truthy(pkg.downloadUrl) then [("distribution", pkg.downloadUrl.value)] else [])
  }

  /** No licence text is lost: it is an id, an expression or a property. */
  lemma LicenseIsKept(lib: Library, pkg: Package)
    requires Truthy(pkg.licenseExpression)
    ensures var expr, comp := pkg.licenseExpression.value, ComponentOf(lib, pkg);
      || Id(expr) in comp.licenses || Expression(expr) in comp.licenses
      || ("sdmas:license:original", expr) in comp.properties
  {
    hide IsValidExpression, HasOperator;
    assert LicenseEntry(pkg.licenseExpression) != [] ==>
      LicenseEntry(pkg.licenseExpression)[0] in LicenseEntry(pkg.licenseExpression);
  }

  /** A recognised licence is an expression if an operator stands in it, and else an id; what is not
      recognised becomes a property. */
  lemma LicenseMeaning(lib: Library, pkg: Package)
    ensures var comp, valid := ComponentOf(lib, pkg), Spdx.Present(pkg.licenseExpression) && !Spdx.LostLicense(pkg);
      && (valid && HasOperator(pkg.licenseExpression.value) ==>
            comp.licenses == [Expression(pkg.licenseExpression.value)])
      && (valid && !HasOperator(pkg.licenseExpression.value) ==> comp.licenses == [Id(pkg.licenseExpression.value)])
      && (!valid ==> comp.licenses == [])
      && comp.properties == (if Spdx.LostLicense(pkg)
                             then [("sdmas:license:original", pkg.licenseExpression.value)] else [])
  {
    hide IsValidExpression, HasOperator, CdxAlgorithm, BomRef;
  }

  function ByText(s: string): Key { [s] }

  ghost predicate Covers(refOf: map<string, string>, pkgs: seq<Package>) {
    forall p | p in pkgs :: p.Identity() in refOf
  }

  /** The references of the direct packages, in inventory order. */
  ghost function DirectRefs(pkgs: seq<Package>, refOf: map<string, string>): seq<string>
    requires Covers(refOf, pkgs)
  {
    if pkgs == [] then [] else
      var p := pkgs[|pkgs| - 1];
      DirectRefs(pkgs[..|pkgs| - 1], refOf) + if p.isDirect then [refOf[p.Identity()]] else []
  }

  function EntryFor(pkg: Package, refOf: map<string, string>, graph: ResolvedGraph): DependencyEntry
    requires pkg.Identity() in refOf
  {
    DependencyEntry(refOf[pkg.Identity()], SortList(ByText, TargetRefs(graph.EdgesOf(pkg), refOf)))
  }

  ghost predicate IsHeader(doc: Document, lib: Library, pkgs: seq<Package>, rootName: string, rootVersion: string,
                           timestamp: string)
  {
    && doc.bomFormat == "CycloneDX" && doc.specVersion == "1.5" && doc.version == 1
    && doc.serialNumber == URN_PREFIX + lib.uuid5(CDX_NAMESPACE, Spdx.CanonicalKey(pkgs, rootName, rootVersion))
    && doc.timestamp == timestamp && doc.rootKind == "application"
    && doc.rootRef == RootRef(lib, rootName, rootVersion) && doc.rootName == rootName && doc.rootVersion == rootVersion
  }

  ghost predicate AreComponents(components: seq<Component>, lib: Library, pkgs: seq<Package>) {
    && |components| == |pkgs|
    && forall i | 0 <= i < |pkgs| :: components[i] == ComponentOf(lib, pkgs[i])
  }

  /** One entry for each package, in order, and the root's entry last. */
  ghost predicate AreDependencies(deps: seq<DependencyEntry>, pkgs: seq<Package>, refOf: map<string, string>,
                                  rootRef: string, graph: ResolvedGraph)
    requires Covers(refOf, pkgs)
  {
    && |deps| == |pkgs| + 1
    && (forall i | 0 <= i < |pkgs| :: deps[i] == EntryFor(pkgs[i], refOf, graph))
    && deps[|pkgs|] == DependencyEntry(rootRef, SortList(ByText, DirectRefs(pkgs, refOf)))
  }

  ghost function RefTable(lib: Library, pkgs: seq<Package>): (refOf: map<string, string>)
    ensures Covers(refOf, pkgs)
  {
    RefMapCovers(pkgs, RefsOf(lib, pkgs));
    RefMap(pkgs, RefsOf(lib, pkgs))
  }

  /** `doc` is what `build_cyclonedx` returns. */
  ghost predicate IsCycloneDxOf(doc: Document, lib: Library, pkgs: seq<Package>, rootName: string, rootVersion: string,
                                graph: ResolvedGraph, timestamp: string)
  {
    && IsHeader(doc, lib, pkgs, rootName, rootVersion, timestamp)
    && AreComponents(doc.components, lib, pkgs)
    && AreDependencies(doc.dependencies, pkgs, RefTable(lib, pkgs), doc.rootRef, graph)
  }

  method MakeComponent(lib: Library, pkg: Package) returns (comp: Component)
    ensures comp == ComponentOf(lib, pkg)
  {
    hide IsValidExpression, HasOperator, CdxAlgorithm, BomRef;
    comp := Component("library", BomRef(lib, pkg), pkg.name, pkg.version, None, [], [], [], []);
    if Truthy(pkg.purl) {
      comp := comp.(purl := pkg.purl);
    }
    var licenses := LicenseEntry(pkg.licenseExpression);
    if licenses != [] {
      comp := comp.(licenses := licenses);
    } else if Truthy(pkg.licenseExpression) {
      comp := comp.(properties := [("sdmas:license:original", pkg.licenseExpression.value)]);
    }
    if pkg.checksums != [] {
      comp := comp.(hashes := Hashes(pkg.checksums));
    }
    if Truthy(pkg.downloadUrl) {
      comp := comp.(externalReferences := [("distribution", pkg.downloadUrl.value)]);
    }
    assert comp.hashes == Hashes(pkg.checksums);
  }

  method BuildComponents(lib: Library, pkgs: seq<Package>)
    returns (components: seq<Component>, refOf: map<string, string>)
    ensures AreComponents(components, lib, pkgs)
    ensures refOf == RefTable(lib, pkgs)
  {
    hide ComponentOf, BomRef, Package.Identity;
    components, refOf := [], map[];
    for i := 0 to |pkgs|
      invariant AreComponents(components, lib, pkgs[..i])
      invariant refOf == RefMap(pkgs[..i], RefsOf(lib, pkgs[..i]))
    {
      assert pkgs[..i + 1][..i] == pkgs[..i];
      assert RefsOf(lib, pkgs[..i + 1])[..i] == RefsOf(lib, pkgs[..i]);
      refOf := refOf[pkgs[i].Identity() := BomRef(lib, pkgs[i])];
      var comp := MakeComponent(lib, pkgs[i]);
      components := components + [comp];
    }
    assert pkgs[..|pkgs|] == pkgs;
  }

  method BuildDependencies(pkgs: seq<Package>, refOf: map<string, string>, rootRef: string, graph: ResolvedGraph)
    returns (deps: seq<DependencyEntry>)
    requires Covers(refOf, pkgs)
    ensures AreDependencies(deps, pkgs, refOf, rootRef, graph)
  {
    hide Package.Identity, ResolvedGraph.EdgesOf, TargetRefs, SortList;
    deps := [];
    for i := 0 to |pkgs|
      invariant |deps| == i
      invariant forall k | 0 <= k < i :: deps[k] == EntryFor(pkgs[k], refOf, graph)
    {
      var dependsOn := CollectTargets(graph.EdgesOf(pkgs[i]), refOf);
      deps := deps + [DependencyEntry(refOf[pkgs[i].Identity()], SortList(ByText, dependsOn))];
    }
    var rootDirect := [];
    for i := 0 to |pkgs|
      invariant rootDirect == DirectRefs(pkgs[..i], refOf)
    {
      assert pkgs[..i + 1][..i] == pkgs[..i];
      if pkgs[i].isDirect { rootDirect := rootDirect + [refOf[pkgs[i].Identity()]]; }
    }
    assert pkgs[..|pkgs|] == pkgs;
    deps := deps + [DependencyEntry(rootRef, SortList(ByText, rootDirect))];
  }

  method BuildCycloneDx(lib: Library, pkgs: seq<Package>, rootName: string, rootVersion: string, graph: ResolvedGraph,
                        timestamp: string, tool: Option<Tool>)
    returns (doc: Document)
    ensures IsCycloneDxOf(doc, lib, pkgs, rootName, rootVersion, graph, timestamp)
    ensures doc.tools == [if tool.Some? then tool.value else SBOM_TOOL]
  {
    hide AreComponents, AreDependencies, RootRef, RefTable;
    var components, refOf := BuildComponents(lib, pkgs);
    var rootRef := RootRef(lib, rootName, rootVersion);
    var deps := BuildDependencies(pkgs, refOf, rootRef, graph);
    var serial := URN_PREFIX + lib.uuid5(CDX_NAMESPACE, Spdx.CanonicalKey(pkgs, rootName, rootVersion));
    var used := if tool.Some? then tool.value else SBOM_TOOL;
    doc := Document("CycloneDX", "1.5", serial, 1, timestamp, [used], "application", rootRef, rootName, rootVersion,
                    components, deps);
  }

  /** The texts that references are derived from, and the namespace of the derivation. */
  lemma RefsDerive(lib: Library, pkg: Package, rootName: string, rootVersion: string)
    ensures BomRef(lib, pkg)
            == lib.uuid5("1f36d2a7-5a1c-4f80-8b3a-9c1d2e3f4a5b",
                         pkg.ecosystem + ":" + pkg.name + ":" + pkg.version + ":" + pkg.source + "|" + pkg.source)
    ensures RootRef(lib, rootName, rootVersion)
            == lib.uuid5("1f36d2a7-5a1c-4f80-8b3a-9c1d2e3f4a5b", "root:" + rootName + ":" + rootVersion)
    ensures ComponentOf(lib, pkg).bomRef == BomRef(lib, pkg)
  {
    hide IsValidExpression, HasOperator, CdxAlgorithm;
  }

  // ---------- when bom-refs are unique ----------

  /** Neither ecosystem nor name nor version holds a colon. */
  ghost predicate ColonFree(p: Package) {
    ':' !in p.ecosystem && ':' !in p.name && ':' !in p.version
  }

  /** A text up to its first colon determines the part before it. */
  lemma FirstField(a: string, x: string, b: string, y: string)
    requires ':' !in a && ':' !in b && a + ":" + x == b + ":" + y
    ensures a == b && x == y
  {
    var s := a + ":" + x;
    assert s[|a|] == ':' && s[|b|] == ':';
    assert s == b + ":" + y;
    assert |a| == |b|;
    assert a == s[..|a|] && b == s[..|b|];
    assert x == s[|a| + 1..] && y == s[|b| + 1..];
  }

  /** Three colon-free fields before a rest can be read back. */
  lemma ThreeFields(p: Package, x: string, q: Package, y: string)
    requires ColonFree(p) && ColonFree(q)
    requires p.ecosystem + ":" + p.name + ":" + p.version + ":" + x
      == q.ecosystem + ":" + q.name + ":" + q.version + ":" + y
    ensures p.ecosystem == q.ecosystem && p.name == q.name && p.version == q.version && x == y
  {
    var p2, q2 := p.version + ":" + x, q.version + ":" + y;
    var p1, q1 := p.name + ":" + p2, q.name + ":" + q2;
    assert p.ecosystem + ":" + p.name + ":" + p.version + ":" + x == p.ecosystem + ":" + p1;
    assert q.ecosystem + ":" + q.name + ":" + q.version + ":" + y == q.ecosystem + ":" + q1;
    FirstField(p.ecosystem, p1, q.ecosystem, q1);
    FirstField(p.name, p2, q.name, q2);
    FirstField(p.version, x, q.version, y);
  }

  /** On colon-free packages the identity, and so the bom-ref's text, tells merge keys apart. */
  lemma ColonFreeIdentity(p: Package, q: Package)
    requires ColonFree(p) && ColonFree(q)
    ensures p.Identity() == q.Identity() <==> p.MergeKey() == q.MergeKey()
    ensures RefText(p) == RefText(q) <==> p.MergeKey() == q.MergeKey()
  {
    hide ColonFree;
    assert p.MergeKey() == q.MergeKey() ==>
        p.ecosystem == q.ecosystem && p.name == q.name && p.version == q.version && p.source == q.source by {
      assert p.MergeKey()[0] == p.ecosystem && p.MergeKey()[1] == p.name && p.MergeKey()[2] == p.version
        && p.MergeKey()[3] == p.source;
    }
    if p.Identity() == q.Identity() { ThreeFields(p, p.source, q, q.source); }
    if RefText(p) == RefText(q) {
      var x, y := p.source + "|" + p.source, q.source + "|" + q.source;
      assert RefText(p) == p.ecosystem + ":" + p.name + ":" + p.version + ":" + x;
      assert RefText(q) == q.ecosystem + ":" + q.name + ":" + q.version + ":" + y;
      ThreeFields(p, x, q, y);
      assert p.source == x[..|p.source|] && q.source == y[..|q.source|];
    }
  }

  /** Different identities do not make different bom-refs, whatever the hash: the text
      `identity|source` can be cut in two places. */
  lemma DistinctIdentitiesDoNotSuffice(p: Package, q: Package)
    requires p.ecosystem == q.ecosystem == NPM && p.name == q.name == "x"
    requires p.version == "1" && p.source == ":a|a"
    requires q.version == "1::a|a|" && q.source == "a"
    ensures p.Identity() != q.Identity() && RefText(p) == RefText(q)
  {
    assert p.Identity() == "npm:x:1::a|a";
    assert q.Identity() == "npm:x:1::a|a|:a";
  }

  lemma RootTextIsDifferent(p: Package, rootName: string, rootVersion: string)
    requires p.ecosystem == PYPI || p.ecosystem == NPM
    ensures RefText(p) != RootText(rootName, rootVersion)
  {
    assert RefText(p)[0] == p.ecosystem[0];
    assert RootText(rootName, rootVersion)[0] == 'r';
  }
}
