/** The `generate` command: merge, relativise sources, resolve, emit both formats, validate. */
module Pipeline {
  import opened Models
  import opened Patterns
  import opened Resolve
  import CycloneDx
  import CycloneDxValidation
  import Inventories
  import Spdx
  import SpdxValidation

  /** `_relativize`: `relative` stands for `_relative_source`. */
  function Relativised(pkgs: seq<Package>, relative: string -> string): (r: seq<Package>)
    ensures |r| == |pkgs|
    ensures forall i | 0 <= i < |r| :: r[i] == pkgs[i].(source := relative(pkgs[i].source))
  {
    if pkgs == [] then [] else
      Relativised(pkgs[..|pkgs| - 1], relative) + [pkgs[|pkgs| - 1].(source := relative(pkgs[|pkgs| - 1].source))]
  }

  /** Two packages of one ecosystem, name and version whose sources become the same path. */
  ghost predicate Collide(p: Package, q: Package, relative: string -> string) {
    && p.ecosystem == q.ecosystem && p.name == q.name && p.version == q.version
    && relative(p.source) == relative(q.source)
  }

  ghost predicate NoCollisions(pkgs: seq<Package>, relative: string -> string) {
    forall i, j | 0 <= i < j < |pkgs| :: !Collide(pkgs[i], pkgs[j], relative)
  }

  lemma CollideMeansSameKey(p: Package, q: Package, relative: string -> string)
    ensures Collide(p, q, relative) <==>
            p.(source := relative(p.source)).MergeKey() == q.(source := relative(q.source)).MergeKey()
  {
    var a, b := p.(source := relative(p.source)).MergeKey(), q.(source := relative(q.source)).MergeKey();
    assert a[0] == p.ecosystem && a[1] == p.name && a[2] == p.version && a[3] == relative(p.source);
    assert b[0] == q.ecosystem && b[1] == q.name && b[2] == q.version && b[3] == relative(q.source);
  }

  lemma ClashesAgree(p: Package, q: Package, relative: string -> string)
    requires CycloneDx.ColonFree(p) && CycloneDx.ColonFree(q)
    ensures var p', q' := p.(source := relative(p.source)), q.(source := relative(q.source));
      && (p'.Identity() == q'.Identity() <==> Collide(p, q, relative))
      && (CycloneDx.RefText(p') == CycloneDx.RefText(q') <==> Collide(p, q, relative))
  {
    hide Package.Identity, CycloneDx.RefText, Collide;
    CollideMeansSameKey(p, q, relative);
    CycloneDx.ColonFreeIdentity(p.(source := relative(p.source)), q.(source := relative(q.source)));
  }

  /** Merging made the keys distinct, but sources are rewritten afterwards: on colon-free
      packages identities, and bom-ref texts, stay distinct exactly when no two packages of one
      ecosystem, name and version come to the same source. */
  lemma RelativisedIsIdentified(merged: seq<Package>, relative: string -> string)
    requires forall p | p in merged :: CycloneDx.ColonFree(p)
    ensures DistinctIdentities(Relativised(merged, relative)) <==> NoCollisions(merged, relative)
    ensures CycloneDx.DistinctTexts(Relativised(merged, relative)) <==> NoCollisions(merged, relative)
  {
    hide Package.Identity, CycloneDx.RefText, CycloneDx.ColonFree, Collide;
    var out := Relativised(merged, relative);
    forall i, j | 0 <= i < j < |merged|
      ensures out[i].Identity() == out[j].Identity() <==> Collide(merged[i], merged[j], relative)
      ensures CycloneDx.RefText(out[i]) == CycloneDx.RefText(out[j]) <==> Collide(merged[i], merged[j], relative)
    {
      assert merged[i] in merged && merged[j] in merged;
      ClashesAgree(merged[i], merged[j], relative);
    }
  }

  /** What both validators require of the packages. */
  ghost predicate Printable(pkgs: seq<Package>, rootName: string, rootVersion: string) {
    && CycloneDx.DistinctTexts(pkgs) && CycloneDx.RootTextFree(pkgs, rootName, rootVersion)
    && forall p | p in pkgs :: CycloneDxValidation.Clean(p)
  }

  lemma CleanForBoth(p: Package)
    requires CycloneDxValidation.Clean(p)
    ensures SpdxValidation.Clean(p)
  {
    hide IsPurl, CycloneDxValidation.LicensePrintable;
  }

  lemma UtcIsTimestamp(t: string)
    requires IsUtcTimestamp(t)
    ensures IsTimestamp(t)
  {
    hide Fits;
  }

  /** Both documents of one inventory are accepted exactly when there is a package, the
      timestamp is in UTC and the packages are printable. */
  lemma BothAccepted(spdx: Spdx.Document, cdx: CycloneDx.Document, lib: Library, pkgs: seq<Package>, rootName: string,
                     rootVersion: string, graph: ResolvedGraph, created: string)
    requires lib.Sound() && lib.TellsApart(CycloneDx.CDX_NAMESPACE, CycloneDx.AllTexts(pkgs, rootName, rootVersion))
    requires Spdx.IsSpdxOf(spdx, lib, pkgs, rootName, rootVersion, graph, created)
    requires CycloneDx.IsCycloneDxOf(cdx, lib, pkgs, rootName, rootVersion, graph, created)
    ensures (forall e :: !SpdxValidation.Fails(spdx, e)) && (forall e :: !CycloneDxValidation.Fails(lib, cdx, e)) <==>
            pkgs != [] && IsUtcTimestamp(created) && Printable(pkgs, rootName, rootVersion)
  {
    hide *;
    SpdxValidation.AcceptsEmitted(spdx, lib, pkgs, rootName, rootVersion, graph, created);
    CycloneDxValidation.AcceptsEmitted(cdx, lib, pkgs, rootName, rootVersion, graph, created);
    PrintableMeans(pkgs, rootName, rootVersion);
    if IsUtcTimestamp(created) { UtcIsTimestamp(created); }
    forall p | p in pkgs && CycloneDxValidation.Clean(p) ensures SpdxValidation.Clean(p) { CleanForBoth(p); }
  }

  lemma PrintableMeans(pkgs: seq<Package>, rootName: string, rootVersion: string)
    ensures Printable(pkgs, rootName, rootVersion) <==>
            && CycloneDx.DistinctTexts(pkgs) && CycloneDx.RootTextFree(pkgs, rootName, rootVersion)
            && forall p | p in pkgs :: CycloneDxValidation.Clean(p)
  {
  }

  /** `generate`, from parsed inventories to the exit code: 0 exactly when both documents
      validate. */
  method Generate(lib: Library, inventories: seq<Inventories.Parsed>, relative: string -> string, rootName: string,
                  rootVersion: string, created: string, toolCreator: string)
    returns (exitCode: int, packages: seq<Package>, ghost merged: seq<Package>)
    requires lib.Sound() && lib.Injective(CycloneDx.CDX_NAMESPACE)
    ensures Inventories.IsMerge(merged, Inventories.AllPackages(inventories))
    ensures packages == Relativised(merged, relative)
    ensures exitCode == 0 || exitCode == 1
    ensures exitCode == 0 <==> packages != [] && IsUtcTimestamp(created) && Printable(packages, rootName, rootVersion)
  {
    hide *;
    var unique, warnings := Inventories.MergeInventories(inventories);
    merged := unique;
    packages := Relativised(unique, relative);
    var graph := ResolveGraph(packages);
    var spdx := Spdx.BuildSpdx(lib, packages, rootName, rootVersion, graph, created, toolCreator);
    var cdx := CycloneDx.BuildCycloneDx(lib, packages, rootName, rootVersion, graph, created, None);
    InjectiveTellsApart(lib, CycloneDx.CDX_NAMESPACE, CycloneDx.AllTexts(packages, rootName, rootVersion));
    BothAccepted(spdx, cdx, lib, packages, rootName, rootVersion, graph, created);
    var spdxErrors := SpdxValidation.Validate(spdx);
    var cdxErrors := CycloneDxValidation.Validate(lib, cdx);
    EmptyMeansNone(spdxErrors);
    EmptyMeansNone(cdxErrors);
    exitCode := if spdxErrors == [] && cdxErrors == [] then 0 else 1;
  }

  lemma EmptyMeansNone<T>(s: seq<T>)
    ensures s == [] <==> forall x :: x !in s
  {
    assert s == [] || s[0] in s;
  }

  lemma InjectiveTellsApart(lib: Library, ns: string, texts: set<string>)
    requires lib.Injective(ns)
    ensures lib.TellsApart(ns, texts)
  {
  }
}
