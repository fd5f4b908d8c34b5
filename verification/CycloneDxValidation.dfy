/** The CycloneDX validator, exactly which documents of the emitter it accepts, and the
    agreement of the two formats on the dependency relation. */
module CycloneDxValidation {
  import opened CycloneDx
  import opened Digraphs
  import opened Licenses
  import opened Models
  import opened Orders
  import opened Patterns
  import opened References
  import opened Resolve
  import SpdxValidation

  datatype Problem =
    | WrongFormat(found: string)
    | WrongSpecVersion(found: string)
    | BadVersion
    | BadSerial(found: string)
    | BadTimestamp(found: string)
    | NoComponents
    | MissingRef
    | DuplicateRef(ref: string)
    | MissingField(ref: string, field: string)
    | UnknownLicense(ref: string, id: string)
    | MalformedPurl(ref: string, purl: string)
    | NotHex(ref: string)
    | UnknownRef(ref: string)
    | UnknownTarget(ref: string)

  predicate SerialReads(lib: Library, serial: string) {
    URN_PREFIX <= serial && lib.readsAsUuid(serial[|URN_PREFIX|..])
  }

  ghost predicate HeaderFails(lib: Library, doc: Document, e: Problem) {
    match e
    case WrongFormat(f) => f == doc.bomFormat && f != "CycloneDX"
    case WrongSpecVersion(v) => v == doc.specVersion && v != "1.5"
    case BadVersion => doc.version < 1
    case BadSerial(s) => s == doc.serialNumber && !SerialReads(lib, s)
    case BadTimestamp(t) => t == doc.timestamp && !IsTimestamp(t)
    case NoComponents => doc.components == []
    case _ => false
  }

  /** What is wrong with a component, given the references known before it. */
  ghost predicate ComponentFails(comp: Component, known: set<string>, e: Problem) {
    match e
    case MissingRef => comp.bomRef == ""
    case DuplicateRef(ref) => ref == comp.bomRef && ref != "" && ref in known
    case MissingField(ref, field) =>
      ref == comp.bomRef && ((field == "name" && comp.name == "") || (field == "version" && comp.version == ""))
    case UnknownLicense(ref, id) => ref == comp.bomRef && !Listed(id) && Id(id) in comp.licenses
    case MalformedPurl(ref, purl) => ref == comp.bomRef && comp.purl == Some(purl) && !IsPurl(purl)
    case NotHex(ref) => ref == comp.bomRef && exists h :: h in comp.hashes && !IsHex(h.1)
    case _ => false
  }

  ghost predicate EntryFails(entry: DependencyEntry, known: set<string>, e: Problem) {
    match e
    case UnknownRef(ref) => ref == entry.ref && ref !in known
    case UnknownTarget(ref) => ref in entry.dependsOn && ref !in known
    case _ => false
  }

  /** The root's reference, if it has one, and the components'. */
  ghost function KnownRefs(rootRef: string, components: seq<Component>): set<string> {
    RootRefs(rootRef) + set c | c in components :: c.bomRef
  }

  function RootRefs(rootRef: string): set<string> { if rootRef != "" then {rootRef} else {} }

  ghost predicate SomeComponentFails(rootRef: string, components: seq<Component>, e: Problem) {
    exists i :: 0 <= i < |components| && ComponentFails(components[i], KnownRefs(rootRef, components[..i]), e)
  }

  ghost predicate SomeEntryFails(deps: seq<DependencyEntry>, known: set<string>, e: Problem) {
    exists k :: 0 <= k < |deps| && EntryFails(deps[k], known, e)
  }

  /** `e` is one of the problems of `doc`. */
  ghost predicate Fails(lib: Library, doc: Document, e: Problem) {
    || HeaderFails(lib, doc, e)
    || SomeComponentFails(doc.rootRef, doc.components, e)
    || SomeEntryFails(doc.dependencies, KnownRefs(doc.rootRef, doc.components), e)
  }

  method CheckHeader(lib: Library, doc: Document) returns (errors: seq<Problem>)
    ensures forall e :: e in errors <==> HeaderFails(lib, doc, e)
  {
    hide SerialReads, IsTimestamp;
    errors := [];
    if doc.bomFormat != "CycloneDX" { errors := errors + [WrongFormat(doc.bomFormat)]; }
    if doc.specVersion != "1.5" { errors := errors + [WrongSpecVersion(doc.specVersion)]; }
    if doc.version < 1 { errors := errors + [BadVersion]; }
    if !SerialReads(lib, doc.serialNumber) { errors := errors + [BadSerial(doc.serialNumber)]; }
    if !IsTimestamp(doc.timestamp) { errors := errors + [BadTimestamp(doc.timestamp)]; }
    if doc.components == [] { errors := errors + [NoComponents]; }
  }

  method CheckLicenses(ref: string, licenses: seq<License>) returns (errors: seq<Problem>)
    ensures forall e :: e in errors <==> e.UnknownLicense? && e.ref == ref && !Listed(e.id) && Id(e.id) in licenses
  {
    hide Listed;
    errors := [];
    for k := 0 to |licenses|
      invariant forall e :: e in errors <==>
        e.UnknownLicense? && e.ref == ref && !Listed(e.id) && Id(e.id) in licenses[..k]
    {
      assert licenses[..k + 1] == licenses[..k] + [licenses[k]];
      if licenses[k].Id? && !Listed(licenses[k].id) {
        errors := errors + [UnknownLicense(ref, licenses[k].id)];
      }
    }
    assert licenses[..|licenses|] == licenses;
  }

  method CheckHashes(ref: string, hashes: seq<(string, string)>) returns (errors: seq<Problem>)
    ensures forall e :: e in errors <==> e == NotHex(ref) && exists h :: h in hashes && !IsHex(h.1)
  {
    hide IsHex;
    errors := [];
    for k := 0 to |hashes|
      invariant forall e :: e in errors <==> e == NotHex(ref) && exists h :: h in hashes[..k] && !IsHex(h.1)
    {
      assert hashes[..k + 1] == hashes[..k] + [hashes[k]];
      if !IsHex(hashes[k].1) { errors := errors + [NotHex(ref)]; }
    }
    assert hashes[..|hashes|] == hashes;
  }

  method CheckComponent(comp: Component, known: set<string>) returns (errors: seq<Problem>)
    ensures forall e :: e in errors <==> ComponentFails(comp, known, e)
  {
    hide Listed, IsHex, IsPurl;
    var ref := comp.bomRef;
    errors := [];
    if ref == "" {
      errors := errors + [MissingRef];
    } else if ref in known {
      errors := errors + [DuplicateRef(ref)];
    }
    if comp.name == "" { errors := errors + [MissingField(ref, "name")]; }
    if comp.version == "" { errors := errors + [MissingField(ref, "version")]; }
    var fromLicenses := CheckLicenses(ref, comp.licenses);
    errors := errors + fromLicenses;
    if comp.purl.Some? && !IsPurl(comp.purl.value) { errors := errors + [MalformedPurl(ref, comp.purl.value)]; }
    var fromHashes := CheckHashes(ref, comp.hashes);
    errors := errors + fromHashes;
  }

  method CheckComponents(rootRef: string, components: seq<Component>) returns (errors: seq<Problem>, known: set<string>)
    ensures forall e :: e in errors <==> SomeComponentFails(rootRef, components, e)
    ensures known == KnownRefs(rootRef, components)
  {
    hide ComponentFails;
    errors, known := [], RootRefs(rootRef);
    for i := 0 to |components|
      invariant known == KnownRefs(rootRef, components[..i])
      invariant forall e :: e in errors <==> SomeComponentFails(rootRef, components[..i], e)
    {
      var more := CheckComponent(components[i], known);
      forall e ensures e in errors + more <==> SomeComponentFails(rootRef, components[..i + 1], e) {
        ComponentFailsStep(rootRef, components, i, e);
      }
      errors := errors + more;
      assert components[..i + 1] == components[..i] + [components[i]];
      known := known + {components[i].bomRef};
    }
    assert components[..|components|] == components;
  }

  lemma ComponentFailsStep(rootRef: string, components: seq<Component>, i: nat, e: Problem)
    requires i < |components|
    ensures SomeComponentFails(rootRef, components[..i + 1], e) <==>
            SomeComponentFails(rootRef, components[..i], e)
            || ComponentFails(components[i], KnownRefs(rootRef, components[..i]), e)
  {
    hide ComponentFails, KnownRefs;
    var now, before := components[..i + 1], components[..i];
    forall j | 0 <= j <= i ensures now[..j] == components[..j] && (j < i ==> before[..j] == components[..j]) {
    }
    if SomeComponentFails(rootRef, now, e) {
      var j :| 0 <= j < |now| && ComponentFails(now[j], KnownRefs(rootRef, now[..j]), e);
      if j < i { assert ComponentFails(before[j], KnownRefs(rootRef, before[..j]), e); }
    }
    if SomeComponentFails(rootRef, before, e) {
      var j :| 0 <= j < |before| && ComponentFails(before[j], KnownRefs(rootRef, before[..j]), e);
      assert ComponentFails(now[j], KnownRefs(rootRef, now[..j]), e);
    }
    if ComponentFails(components[i], KnownRefs(rootRef, components[..i]), e) {
      assert ComponentFails(now[i], KnownRefs(rootRef, now[..i]), e);
    }
  }

  method CheckDependency(entry: DependencyEntry, known: set<string>) returns (errors: seq<Problem>)
    ensures forall e :: e in errors <==> EntryFails(entry, known, e)
  {
    errors := if entry.ref !in known then [UnknownRef(entry.ref)] else [];
    for k := 0 to |entry.dependsOn|
      invariant forall e :: e in errors <==>
        || (e == UnknownRef(entry.ref) && entry.ref !in known)
        || (e.UnknownTarget? && e.ref in entry.dependsOn[..k] && e.ref !in known)
    {
      assert entry.dependsOn[..k + 1] == entry.dependsOn[..k] + [entry.dependsOn[k]];
      if entry.dependsOn[k] !in known { errors := errors + [UnknownTarget(entry.dependsOn[k])]; }
    }
    assert entry.dependsOn[..|entry.dependsOn|] == entry.dependsOn;
  }

  /** `_validate_cyclonedx`: reports exactly the problems that the document has. */
  method Validate(lib: Library, doc: Document) returns (errors: seq<Problem>)
    ensures forall e :: e in errors <==> Fails(lib, doc, e)
  {
    hide HeaderFails, SomeComponentFails, KnownRefs, EntryFails;
    errors := CheckHeader(lib, doc);
    var more, known := CheckComponents(doc.rootRef, doc.components);
    errors := errors + more;
    ghost var soFar := errors;
    for k := 0 to |doc.dependencies|
      invariant forall e :: e in errors <==> e in soFar || SomeEntryFails(doc.dependencies[..k], known, e)
    {
      more := CheckDependency(doc.dependencies[k], known);
      forall e ensures e in errors + more <==> e in soFar || SomeEntryFails(doc.dependencies[..k + 1], known, e) {
        EntryFailsStep(doc.dependencies, k, known, e);
      }
      errors := errors + more;
    }
    assert doc.dependencies[..|doc.dependencies|] == doc.dependencies;
  }

  lemma EntryFailsStep(deps: seq<DependencyEntry>, k: nat, known: set<string>, e: Problem)
    requires k < |deps|
    ensures SomeEntryFails(deps[..k + 1], known, e) <==>
            SomeEntryFails(deps[..k], known, e) || EntryFails(deps[k], known, e)
  {
    hide EntryFails;
    var now, before := deps[..k + 1], deps[..k];
    if SomeEntryFails(before, known, e) {
      var j :| 0 <= j < |before| && EntryFails(before[j], known, e);
      assert now[j] == before[j];
    }
    if EntryFails(deps[k], known, e) { assert now[k] == deps[k]; }
    if SomeEntryFails(now, known, e) {
      var j :| 0 <= j < |now| && EntryFails(now[j], known, e);
      if j < k { assert before[j] == now[j]; }
    }
  }

  // ---------- what the emitter prints ----------

  /** A recognised licence without an operator is itself a listed id. */
  ghost predicate LicensePrintable(expr: Option<string>) {
    Truthy(expr) && IsValidExpression(expr.value) && !HasOperator(expr.value) ==> Listed(expr.value)
  }

  ghost predicate Clean(pkg: Package) {
    && pkg.name != "" && pkg.version != ""
    && (Truthy(pkg.purl) ==> IsPurl(pkg.purl.value))
    && (forall k | 0 <= k < |pkg.checksums| :: IsHex(pkg.checksums[k].1))
    && LicensePrintable(pkg.licenseExpression)
  }

  lemma ComponentIsFine(lib: Library, pkg: Package, known: set<string>, e: Problem)
    requires lib.Sound() && Clean(pkg) && BomRef(lib, pkg) !in known
    ensures !ComponentFails(ComponentOf(lib, pkg), known, e)
  {
    hide IsValidExpression, HasOperator, Listed, IsPurl, IsHex, CdxAlgorithm, RefText;
  }

  /** The problem that an unclean package causes. */
  lemma ComponentIsNotFine(lib: Library, pkg: Package, known: set<string>) returns (e: Problem)
    requires !Clean(pkg)
    ensures ComponentFails(ComponentOf(lib, pkg), known, e)
  {
    hide IsValidExpression, HasOperator, Listed, IsPurl, IsHex, CdxAlgorithm, BomRef;
    var comp := ComponentOf(lib, pkg);
    if pkg.name == "" {
      e := MissingField(comp.bomRef, "name");
    } else if pkg.version == "" {
      e := MissingField(comp.bomRef, "version");
    } else if Truthy(pkg.purl) && !IsPurl(pkg.purl.value) {
      e := MalformedPurl(comp.bomRef, pkg.purl.value);
    } else if !LicensePrintable(pkg.licenseExpression) {
      e := UnknownLicense(comp.bomRef, pkg.licenseExpression.value);
    } else {
      e := NotHex(comp.bomRef);
      var k :| 0 <= k < |pkg.checksums| && !IsHex(pkg.checksums[k].1);
      assert comp.hashes[k] in comp.hashes;
    }
  }

  lemma SerialIsGood(lib: Library, text: string)
    requires lib.Sound()
    ensures SerialReads(lib, URN_PREFIX + lib.uuid5(CDX_NAMESPACE, text))
  {
    var uuid := lib.uuid5(CDX_NAMESPACE, text);
    assert (URN_PREFIX + uuid)[|URN_PREFIX|..] == uuid;
  }

  lemma KnownRefsAre(lib: Library, components: seq<Component>, pkgs: seq<Package>, rootRef: string, n: nat)
    requires AreComponents(components, lib, pkgs) && n <= |pkgs| && rootRef != ""
    ensures KnownRefs(rootRef, components[..n]) == {rootRef} + set x | x in RefsOf(lib, pkgs)[..n]
  {
    hide BomRef, CdxAlgorithm, IsValidExpression, HasOperator, RefsOf;
    var refs := RefsOf(lib, pkgs);
    forall i | 0 <= i < n ensures components[..n][i].bomRef == refs[i] {
      assert components[i] == ComponentOf(lib, pkgs[i]);
    }
    hide AreComponents, ComponentOf;
    forall x ensures x in KnownRefs(rootRef, components[..n]) <==> x == rootRef || x in refs[..n] {
      if x in refs[..n] {
        var i :| 0 <= i < n && refs[i] == x;
        assert components[..n][i] in components[..n];
      }
      if c :| c in components[..n] && c.bomRef == x {
        var i :| 0 <= i < n && components[..n][i] == c;
        assert refs[..n][i] == x;
      }
    }
  }

  lemma {:induction false} DirectRefsResolve(pkgs: seq<Package>, refOf: map<string, string>)
    requires Covers(refOf, pkgs)
    ensures forall r | r in DirectRefs(pkgs, refOf) :: exists p :: p in pkgs && p.isDirect && refOf[p.Identity()] == r
  {
    hide Package.Identity;
    if pkgs != [] {
      var n := |pkgs| - 1;
      DirectRefsResolve(pkgs[..n], refOf);
      assert pkgs == pkgs[..n] + [pkgs[n]];
    }
  }

  ghost predicate MapsInto(refOf: map<string, string>, known: set<string>) {
    forall id | id in refOf :: refOf[id] in known
  }

  lemma PackageEntryResolves(pkg: Package, refOf: map<string, string>, graph: ResolvedGraph, known: set<string>,
                             e: Problem)
    requires pkg.Identity() in refOf && MapsInto(refOf, known)
    ensures !EntryFails(EntryFor(pkg, refOf, graph), known, e)
  {
    hide Package.Identity, ResolvedGraph.EdgesOf, TargetRefs, SortList, Ascending, NoDuplicates;
    var targets := TargetRefs(graph.EdgesOf(pkg), refOf);
    TargetRefsMeaning(graph.EdgesOf(pkg), refOf);
    SameElements(SortList(ByText, targets), targets);
  }

  lemma RootEntryResolves(rootRef: string, pkgs: seq<Package>, refOf: map<string, string>, known: set<string>,
                          e: Problem)
    requires Covers(refOf, pkgs) && MapsInto(refOf, known) && rootRef in known
    ensures !EntryFails(DependencyEntry(rootRef, SortList(ByText, DirectRefs(pkgs, refOf))), known, e)
  {
    hide Package.Identity, DirectRefs, SortList, Ascending;
    DirectRefsResolve(pkgs, refOf);
    SameElements(SortList(ByText, DirectRefs(pkgs, refOf)), DirectRefs(pkgs, refOf));
  }

  lemma RefsAreKnown(components: seq<Component>, lib: Library, pkgs: seq<Package>, rootRef: string)
    requires AreComponents(components, lib, pkgs) && rootRef != ""
    ensures rootRef in KnownRefs(rootRef, components) && MapsInto(RefTable(lib, pkgs), KnownRefs(rootRef, components))
  {
    hide ComponentOf, KnownRefs, RefMap, BomRef;
    KnownRefsAre(lib, components, pkgs, rootRef, |pkgs|);
    assert components[..|pkgs|] == components && RefsOf(lib, pkgs)[..|pkgs|] == RefsOf(lib, pkgs);
    RefMapCovers(pkgs, RefsOf(lib, pkgs));
  }

  /** Whatever the identities are, every `ref` and `dependsOn` resolves. */
  lemma ReferencesResolve(doc: Document, lib: Library, pkgs: seq<Package>, graph: ResolvedGraph, e: Problem)
    requires doc.rootRef != "" && AreComponents(doc.components, lib, pkgs)
    requires AreDependencies(doc.dependencies, pkgs, RefTable(lib, pkgs), doc.rootRef, graph)
    ensures !SomeEntryFails(doc.dependencies, KnownRefs(doc.rootRef, doc.components), e)
  {
    hide AreComponents, Package.Identity, EntryFails, EntryFor, DirectRefs, KnownRefs, RefTable, MapsInto;
    var refOf, known := RefTable(lib, pkgs), KnownRefs(doc.rootRef, doc.components);
    RefsAreKnown(doc.components, lib, pkgs, doc.rootRef);
    forall k | 0 <= k < |doc.dependencies| ensures !EntryFails(doc.dependencies[k], known, e) {
      if k < |pkgs| {
        PackageEntryResolves(pkgs[k], refOf, graph, known, e);
      } else {
        RootEntryResolves(doc.rootRef, pkgs, refOf, known, e);
      }
    }
  }

  lemma ComponentPerPackage(components: seq<Component>, lib: Library, pkgs: seq<Package>)
    requires AreComponents(components, lib, pkgs)
    ensures |components| == |pkgs|
  {
  }

  /** Distinct bom-refs, none the root's, come from distinct texts. */
  lemma RefsAreDistinct(lib: Library, pkgs: seq<Package>, rootName: string, rootVersion: string)
    requires lib.TellsApart(CDX_NAMESPACE, AllTexts(pkgs, rootName, rootVersion))
    ensures DistinctTexts(pkgs) <==> NoDuplicates(RefsOf(lib, pkgs))
    ensures RootTextFree(pkgs, rootName, rootVersion) <==> RootRef(lib, rootName, rootVersion) !in RefsOf(lib, pkgs)
  {
    hide RefText, RootText;
    var refs, root := RefsOf(lib, pkgs), RootRef(lib, rootName, rootVersion);
    forall i, j | 0 <= i < j < |pkgs| ensures RefText(pkgs[i]) == RefText(pkgs[j]) <==> refs[i] == refs[j] {
      assert pkgs[i] in pkgs && pkgs[j] in pkgs;
    }
    forall i | 0 <= i < |pkgs| ensures RefText(pkgs[i]) == RootText(rootName, rootVersion) <==> refs[i] == root {
      assert pkgs[i] in pkgs;
    }
    if root in refs {
      var i :| 0 <= i < |refs| && refs[i] == root;
      assert RefText(pkgs[i]) == RootText(rootName, rootVersion);
    }
    if p :| p in pkgs && RefText(p) == RootText(rootName, rootVersion) {
      var i :| 0 <= i < |pkgs| && pkgs[i] == p;
      assert refs[i] == root;
    }
  }

  lemma NoComponentFails(doc: Document, lib: Library, pkgs: seq<Package>, e: Problem)
    requires lib.Sound() && AreComponents(doc.components, lib, pkgs) && doc.rootRef != ""
    requires NoDuplicates(RefsOf(lib, pkgs)) && doc.rootRef !in RefsOf(lib, pkgs)
    requires forall p | p in pkgs :: Clean(p)
    ensures !SomeComponentFails(doc.rootRef, doc.components, e)
  {
    hide Library.Sound, ComponentFails, ComponentOf, Clean, KnownRefs, BomRef;
    var refs := RefsOf(lib, pkgs);
    forall i | 0 <= i < |doc.components|
      ensures !ComponentFails(doc.components[i], KnownRefs(doc.rootRef, doc.components[..i]), e)
    {
      KnownRefsAre(lib, doc.components, pkgs, doc.rootRef, i);
      assert refs[i] !in refs[..i];
      ComponentIsFine(lib, pkgs[i], KnownRefs(doc.rootRef, doc.components[..i]), e);
    }
  }

  lemma UncleanIsReported(doc: Document, lib: Library, pkgs: seq<Package>, i: nat)
    requires AreComponents(doc.components, lib, pkgs) && i < |pkgs| && !Clean(pkgs[i])
    ensures exists e :: Fails(lib, doc, e)
  {
    hide ComponentFails, ComponentOf, Clean, KnownRefs;
    var known := KnownRefs(doc.rootRef, doc.components[..i]);
    var e := ComponentIsNotFine(lib, pkgs[i], known);
    assert Fails(lib, doc, e);
  }

  lemma ClashIsReported(doc: Document, lib: Library, pkgs: seq<Package>, i: nat)
    requires lib.Sound() && AreComponents(doc.components, lib, pkgs) && doc.rootRef != ""
    requires i < |pkgs| && (RefsOf(lib, pkgs)[i] == doc.rootRef || RefsOf(lib, pkgs)[i] in RefsOf(lib, pkgs)[..i])
    ensures exists e :: Fails(lib, doc, e)
  {
    hide KnownRefs, BomRef, CdxAlgorithm, LicenseEntry, Library.Sound;
    var ref := RefsOf(lib, pkgs)[i];
    KnownRefsAre(lib, doc.components, pkgs, doc.rootRef, i);
    assert ref != "" by { RefNotEmpty(lib, pkgs[i]); }
    assert doc.components[i].bomRef == ref;
    assert ComponentFails(doc.components[i], KnownRefs(doc.rootRef, doc.components[..i]), DuplicateRef(ref));
    assert Fails(lib, doc, DuplicateRef(ref));
  }

  lemma RefNotEmpty(lib: Library, pkg: Package)
    requires lib.Sound()
    ensures BomRef(lib, pkg) != ""
  {
  }

  lemma RefsMustBeDistinct(doc: Document, lib: Library, pkgs: seq<Package>)
    requires lib.Sound() && AreComponents(doc.components, lib, pkgs) && doc.rootRef != ""
    requires forall e :: !Fails(lib, doc, e)
    ensures NoDuplicates(RefsOf(lib, pkgs)) && doc.rootRef !in RefsOf(lib, pkgs)
  {
    hide Library.Sound, AreComponents, Fails, BomRef;
    var refs := RefsOf(lib, pkgs);
    if i :| 0 <= i < |refs| && (refs[i] == doc.rootRef || refs[i] in refs[..i]) {
      ClashIsReported(doc, lib, pkgs, i);
    }
    forall i, j | 0 <= i < j < |refs| ensures refs[i] != refs[j] {
      assert refs[..j][i] == refs[i];
    }
  }

  /** The validator accepts what the emitter prints exactly when there is a package, the
      timestamp is well formed, no two bom-ref texts agree with each other or with the
      root's, and every package is clean. */
  lemma AcceptsEmitted(doc: Document, lib: Library, pkgs: seq<Package>, rootName: string, rootVersion: string,
                       graph: ResolvedGraph, timestamp: string)
    requires lib.Sound() && lib.TellsApart(CDX_NAMESPACE, AllTexts(pkgs, rootName, rootVersion))
    requires IsCycloneDxOf(doc, lib, pkgs, rootName, rootVersion, graph, timestamp)
    ensures (forall e :: !Fails(lib, doc, e)) <==>
            && pkgs != [] && IsTimestamp(timestamp)
            && DistinctTexts(pkgs) && RootTextFree(pkgs, rootName, rootVersion)
            && forall p | p in pkgs :: Clean(p)
  {
    hide Library.Sound, Library.TellsApart, IsTimestamp, AreComponents, AreDependencies, SomeComponentFails,
      SomeEntryFails, Clean, DistinctTexts, RootTextFree, NoDuplicates, RootRef, SerialReads, Spdx.CanonicalKey;
    assert doc.rootRef != "" by { RootRefNotEmpty(lib, rootName, rootVersion); }
    ComponentPerPackage(doc.components, lib, pkgs);
    RefsAreDistinct(lib, pkgs, rootName, rootVersion);
    SerialIsGood(lib, Spdx.CanonicalKey(pkgs, rootName, rootVersion));
    if forall e :: !Fails(lib, doc, e) {
      RefsMustBeDistinct(doc, lib, pkgs);
      assert !Fails(lib, doc, NoComponents) && !Fails(lib, doc, BadTimestamp(timestamp));
      forall p | p in pkgs ensures Clean(p) {
        var i :| 0 <= i < |pkgs| && pkgs[i] == p;
        if !Clean(p) { UncleanIsReported(doc, lib, pkgs, i); }
      }
    }
    if pkgs != [] && IsTimestamp(timestamp) && DistinctTexts(pkgs) && RootTextFree(pkgs, rootName, rootVersion)
       && forall p | p in pkgs :: Clean(p) {
      forall e ensures !Fails(lib, doc, e) {
        NoComponentFails(doc, lib, pkgs, e);
        ReferencesResolve(doc, lib, pkgs, graph, e);
      }
    }
  }

  lemma RootRefNotEmpty(lib: Library, rootName: string, rootVersion: string)
    requires lib.Sound()
    ensures RootRef(lib, rootName, rootVersion) != ""
  {
  }

  /** A package whose licence is `(MIT)` is never accepted. */
  lemma ParenthesisedLicenseIsRejected(doc: Document, lib: Library, pkgs: seq<Package>, rootName: string,
                                       rootVersion: string, graph: ResolvedGraph, timestamp: string, i: nat)
    requires IsCycloneDxOf(doc, lib, pkgs, rootName, rootVersion, graph, timestamp)
    requires i < |pkgs| && pkgs[i].licenseExpression == Some(PARENTHESISED)
    ensures exists e :: Fails(lib, doc, e)
  {
    hide IsValidExpression, HasOperator, Listed, AreComponents, Fails;
    ParenthesisedIsRecognised();
    assert !LicensePrintable(pkgs[i].licenseExpression);
    UncleanIsReported(doc, lib, pkgs, i);
  }

  // ---------- the edges ----------

  lemma RefTableExact(lib: Library, pkgs: seq<Package>)
    requires DistinctIdentities(pkgs)
    ensures forall i | 0 <= i < |pkgs| ::
              pkgs[i].Identity() in RefTable(lib, pkgs)
              && RefTable(lib, pkgs)[pkgs[i].Identity()] == BomRef(lib, pkgs[i])
  {
    hide Package.Identity, BomRef, RefMap;
    RefMapExact(pkgs, RefsOf(lib, pkgs));
  }

  lemma CountDirect(lib: Library, pkgs: seq<Package>, refOf: map<string, string>, i: nat)
    requires Covers(refOf, pkgs) && NoDuplicates(RefsOf(lib, pkgs))
    requires forall k | 0 <= k < |pkgs| :: refOf[pkgs[k].Identity()] == BomRef(lib, pkgs[k])
    requires i < |pkgs|
    ensures multiset(DirectRefs(pkgs, refOf))[BomRef(lib, pkgs[i])] == if pkgs[i].isDirect then 1 else 0
  {
    hide Package.Identity, BomRef, DirectRefs;
    CountDirectRefs(pkgs, refOf, RefsOf(lib, pkgs), i);
  }

  lemma {:induction false} CountDirectRefs(pkgs: seq<Package>, refOf: map<string, string>, refs: seq<string>, i: nat)
    requires Covers(refOf, pkgs) && |refs| == |pkgs| && NoDuplicates(refs) && i < |pkgs|
    requires forall k | 0 <= k < |pkgs| :: refOf[pkgs[k].Identity()] == refs[k]
    ensures multiset(DirectRefs(pkgs, refOf))[refs[i]] == if pkgs[i].isDirect then 1 else 0
  {
    hide Package.Identity, DirectRefs;
    var n := |pkgs| - 1;
    DirectRefsStep(pkgs, refOf, refs[i]);
    if i < n {
      CountDirectRefs(pkgs[..n], refOf, refs[..n], i);
    } else {
      NoneDirect(pkgs[..n], refOf, refs[n], refs[..n]);
    }
  }

  lemma DirectRefsStep(pkgs: seq<Package>, refOf: map<string, string>, ref: string)
    requires Covers(refOf, pkgs) && pkgs != []
    ensures var n := |pkgs| - 1;
      multiset(DirectRefs(pkgs, refOf))[ref] == multiset(DirectRefs(pkgs[..n], refOf))[ref]
                                                + if pkgs[n].isDirect && refOf[pkgs[n].Identity()] == ref then 1 else 0
  {
    hide Package.Identity;
  }

  lemma {:induction false} NoneDirect(pkgs: seq<Package>, refOf: map<string, string>, ref: string, refs: seq<string>)
    requires Covers(refOf, pkgs) && |refs| == |pkgs|
    requires forall k | 0 <= k < |pkgs| :: refOf[pkgs[k].Identity()] == refs[k] != ref
    ensures multiset(DirectRefs(pkgs, refOf))[ref] == 0
  {
    hide Package.Identity;
    if pkgs != [] {
      NoneDirect(pkgs[..|pkgs| - 1], refOf, ref, refs[..|pkgs| - 1]);
    }
  }

  /** With distinct identities and bom-ref texts the root's entry lists exactly the direct
      packages, each once. */
  lemma RootDependsOnDirect(doc: Document, lib: Library, pkgs: seq<Package>, rootName: string, rootVersion: string,
                            graph: ResolvedGraph, timestamp: string, i: nat)
    requires lib.TellsApart(CDX_NAMESPACE, AllTexts(pkgs, rootName, rootVersion))
    requires IsCycloneDxOf(doc, lib, pkgs, rootName, rootVersion, graph, timestamp)
    requires DistinctIdentities(pkgs) && DistinctTexts(pkgs) && i < |pkgs|
    ensures |doc.components| == |pkgs| && |doc.dependencies| == |pkgs| + 1
    ensures doc.dependencies[|pkgs|].ref == doc.rootRef
    ensures multiset(doc.dependencies[|pkgs|].dependsOn)[doc.components[i].bomRef] == if pkgs[i].isDirect then 1 else 0
  {
    hide Library.TellsApart, DistinctIdentities, DistinctTexts, Package.Identity, BomRef, EntryFor, DirectRefs,
      SortList, RefTable, NoDuplicates, LicenseEntry, CdxAlgorithm;
    RefsAreDistinct(lib, pkgs, rootName, rootVersion);
    RefTableExact(lib, pkgs);
    CountDirect(lib, pkgs, RefTable(lib, pkgs), i);
  }

  /** With distinct identities and bom-ref texts the entry of package `i` lists package `j`
      exactly once if `i` depends on `j`, and not at all otherwise. */
  lemma CycloneDxEdges(doc: Document, lib: Library, pkgs: seq<Package>, rootName: string, rootVersion: string,
                       graph: ResolvedGraph, timestamp: string, i: nat, j: nat)
    requires lib.Sound() && lib.TellsApart(CDX_NAMESPACE, AllTexts(pkgs, rootName, rootVersion))
    requires IsCycloneDxOf(doc, lib, pkgs, rootName, rootVersion, graph, timestamp)
    requires IsResolution(graph, pkgs) && DistinctIdentities(pkgs) && DistinctTexts(pkgs)
    requires i < |pkgs| && j < |pkgs|
    ensures |doc.components| == |pkgs| && |doc.dependencies| == |pkgs| + 1
    ensures doc.dependencies[i].ref == doc.components[i].bomRef
    ensures multiset(doc.dependencies[i].dependsOn)[doc.components[j].bomRef]
      == if DependsOn(pkgs[i], pkgs[j]) then 1 else 0
  {
    hide Library.Sound, Library.TellsApart, IsResolution, DistinctIdentities, DistinctTexts, Package.Identity, BomRef,
      DirectRefs, SortList, NoDuplicates, LicenseEntry, CdxAlgorithm, DependsOn, TargetRefs, ResolvedGraph.EdgesOf,
      RefMap;
    RefsAreDistinct(lib, pkgs, rootName, rootVersion);
    RefTableExact(lib, pkgs);
    var refs := RefsOf(lib, pkgs);
    NoEmptyRef(lib, pkgs);
    TargetsEncodeDependence(pkgs, graph, refs, i);
    var targets := TargetRefs(graph.EdgesOf(pkgs[i]), RefMap(pkgs, refs));
    CountInDistinct(targets, refs[j]);
    assert multiset(SortList(ByText, targets)) == multiset(targets);
  }

  lemma NoEmptyRef(lib: Library, pkgs: seq<Package>)
    requires lib.Sound()
    ensures "" !in RefsOf(lib, pkgs)
  {
  }

  /** The two formats encode the same relation: an edge of one is an edge of the other, each
      stated once, and it is there exactly when the one package depends on the other. */
  lemma FormatsAgree(spdx: Spdx.Document, cdx: Document, lib: Library, pkgs: seq<Package>, rootName: string,
                     rootVersion: string, graph: ResolvedGraph, created: string, i: nat, j: nat)
    requires lib.Sound() && lib.TellsApart(CDX_NAMESPACE, AllTexts(pkgs, rootName, rootVersion))
    requires Spdx.IsSpdxOf(spdx, lib, pkgs, rootName, rootVersion, graph, created)
    requires IsCycloneDxOf(cdx, lib, pkgs, rootName, rootVersion, graph, created)
    requires IsResolution(graph, pkgs) && DistinctIdentities(pkgs) && DistinctTexts(pkgs)
    requires i < |pkgs| && j < |pkgs|
    ensures |spdx.packages| == |cdx.components| == |pkgs| && |cdx.dependencies| == |pkgs| + 1
    ensures multiset(spdx.relationships)[Spdx.Relationship(spdx.packages[i].spdxId, Spdx.DEPENDS_ON,
                                                           spdx.packages[j].spdxId)]
            == multiset(cdx.dependencies[i].dependsOn)[cdx.components[j].bomRef]
            == if DependsOn(pkgs[i], pkgs[j]) then 1 else 0
  {
    hide *;
    SpdxValidation.SpdxParts(spdx, lib, pkgs, rootName, rootVersion, graph, created);
    SpdxValidation.SpdxEdges(spdx, lib, pkgs, rootName, rootVersion, graph, created, i, j);
    CycloneDxEdges(cdx, lib, pkgs, rootName, rootVersion, graph, created, i, j);
  }

  // ---------- what acceptance means ----------

  ghost predicate KnownEnd(doc: Document, ref: string) {
    || (ref == doc.rootRef && ref != "")
    || exists i :: 0 <= i < |doc.components| && doc.components[i].bomRef == ref
  }

  ghost predicate GoodComponent(comp: Component, rootRef: string) {
    && comp.bomRef != "" && comp.bomRef != rootRef && comp.name != "" && comp.version != ""
    && (forall id | Id(id) in comp.licenses :: id in COMMON_SPDX_IDS || id in SPECIAL)
    && (comp.purl.Some? ==> IsPurl(comp.purl.value))
    && forall h | h in comp.hashes :: IsHex(h.1)
  }

  /** A document of CycloneDX 1.5 as the validator understands it, without the order in which it looks. */
  ghost predicate WellFormed(lib: Library, doc: Document) {
    && doc.bomFormat == "CycloneDX" && doc.specVersion == "1.5" && doc.version >= 1
    && "urn:uuid:" <= doc.serialNumber && lib.readsAsUuid(doc.serialNumber[9..])
    && IsTimestamp(doc.timestamp) && doc.components != []
    && (forall i | 0 <= i < |doc.components| :: GoodComponent(doc.components[i], doc.rootRef))
    && (forall i, j | 0 <= i < j < |doc.components| :: doc.components[i].bomRef != doc.components[j].bomRef)
    && forall d | d in doc.dependencies :: KnownEnd(doc, d.ref) && forall t | t in d.dependsOn :: KnownEnd(doc, t)
  }

  lemma KnownRefsMeaning(rootRef: string, components: seq<Component>, ref: string)
    ensures ref in KnownRefs(rootRef, components) <==>
            (ref == rootRef && ref != "") || exists i :: 0 <= i < |components| && components[i].bomRef == ref
  {
    if i :| 0 <= i < |components| && components[i].bomRef == ref { assert components[i] in components; }
    if c :| c in components && c.bomRef == ref { assert exists i :: 0 <= i < |components| && components[i] == c; }
  }

  /** A component is passed, after those before it, exactly when it is good and its reference new. */
  lemma ComponentPasses(rootRef: string, components: seq<Component>, i: nat)
    requires i < |components|
    ensures (forall e :: !ComponentFails(components[i], KnownRefs(rootRef, components[..i]), e)) <==>
            && GoodComponent(components[i], rootRef)
            && forall j | 0 <= j < i :: components[j].bomRef != components[i].bomRef
  {
    hide IsPurl, IsHex, KnownRefs, COMMON_SPDX_IDS, SPECIAL;
    var c, known := components[i], KnownRefs(rootRef, components[..i]);
    KnownRefsMeaning(rootRef, components[..i], c.bomRef);
    assert forall j | 0 <= j < i :: components[..i][j] == components[j];
    if forall e :: !ComponentFails(c, known, e) {
      assert !ComponentFails(c, known, MissingRef) && !ComponentFails(c, known, DuplicateRef(c.bomRef));
      assert !ComponentFails(c, known, MissingField(c.bomRef, "name"));
      assert !ComponentFails(c, known, MissingField(c.bomRef, "version"));
      forall id | Id(id) in c.licenses ensures Listed(id) {
        assert !ComponentFails(c, known, UnknownLicense(c.bomRef, id));
      }
      if c.purl.Some? { assert !ComponentFails(c, known, MalformedPurl(c.bomRef, c.purl.value)); }
      assert !ComponentFails(c, known, NotHex(c.bomRef));
    }
  }

  lemma HeaderPasses(lib: Library, doc: Document)
    ensures (forall e :: !HeaderFails(lib, doc, e)) <==>
            && doc.bomFormat == "CycloneDX" && doc.specVersion == "1.5" && doc.version >= 1
            && "urn:uuid:" <= doc.serialNumber && lib.readsAsUuid(doc.serialNumber[9..])
            && IsTimestamp(doc.timestamp) && doc.components != []
  {
    hide IsTimestamp;
    if forall e :: !HeaderFails(lib, doc, e) {
      assert !HeaderFails(lib, doc, WrongFormat(doc.bomFormat)) && !HeaderFails(lib, doc, BadVersion);
      assert !HeaderFails(lib, doc, WrongSpecVersion(doc.specVersion)) && !HeaderFails(lib, doc, NoComponents);
      assert !HeaderFails(lib, doc, BadSerial(doc.serialNumber)) && !HeaderFails(lib, doc, BadTimestamp(doc.timestamp));
    }
  }

  lemma DependencyPasses(doc: Document, d: DependencyEntry)
    ensures (forall e :: !EntryFails(d, KnownRefs(doc.rootRef, doc.components), e)) <==>
            KnownEnd(doc, d.ref) && forall t | t in d.dependsOn :: KnownEnd(doc, t)
  {
    hide KnownRefs;
    var known := KnownRefs(doc.rootRef, doc.components);
    forall ref ensures ref in known <==> KnownEnd(doc, ref) { KnownRefsMeaning(doc.rootRef, doc.components, ref); }
    hide KnownEnd;
    if forall e :: !EntryFails(d, known, e) {
      assert !EntryFails(d, known, UnknownRef(d.ref));
      forall t | t in d.dependsOn ensures KnownEnd(doc, t) { assert !EntryFails(d, known, UnknownTarget(t)); }
    }
  }

  /** The validator accepts exactly the well-formed documents. */
  lemma AcceptsWellFormed(lib: Library, doc: Document)
    ensures (forall e :: !Fails(lib, doc, e)) <==> WellFormed(lib, doc)
  {
    hide HeaderFails, EntryFails, ComponentFails, KnownRefs, KnownEnd, GoodComponent, IsTimestamp;
    HeaderPasses(lib, doc);
    var known, comps := KnownRefs(doc.rootRef, doc.components), doc.components;
    forall i: nat | i < |comps|
      ensures (forall e :: !ComponentFails(comps[i], KnownRefs(doc.rootRef, comps[..i]), e)) <==>
              GoodComponent(comps[i], doc.rootRef) && forall j | 0 <= j < i :: comps[j].bomRef != comps[i].bomRef
    {
      ComponentPasses(doc.rootRef, comps, i);
    }
    forall d ensures (forall e :: !EntryFails(d, known, e)) <==>
                     KnownEnd(doc, d.ref) && forall t | t in d.dependsOn :: KnownEnd(doc, t) {
      DependencyPasses(doc, d);
    }
    if forall e :: !Fails(lib, doc, e) {
      forall e ensures !HeaderFails(lib, doc, e) { assert !Fails(lib, doc, e); }
      forall i, e | 0 <= i < |comps| ensures !ComponentFails(comps[i], KnownRefs(doc.rootRef, comps[..i]), e) {
        assert !Fails(lib, doc, e);
      }
      forall d, e | d in doc.dependencies ensures !EntryFails(d, known, e) {
        assert !Fails(lib, doc, e);
        var k :| 0 <= k < |doc.dependencies| && doc.dependencies[k] == d;
      }
    }
    if WellFormed(lib, doc) {
      forall e ensures !Fails(lib, doc, e) {
        forall k | 0 <= k < |doc.dependencies| ensures !EntryFails(doc.dependencies[k], known, e) {
          assert doc.dependencies[k] in doc.dependencies;
        }
      }
    }
  }

  // ---------- what is said of each package ----------

  /** Both formats say of a package its name and version, its purl and download address if it has
      any, and its checksums under the names that each format has for the algorithms. */
  ghost predicate SaidInBoth(pkg: Package, entry: Spdx.Entry, comp: Component) {
    && entry.name == comp.name == pkg.name && entry.versionInfo == comp.version == pkg.version
    && (match pkg.purl
        case Some(purl) =>
          if purl == "" then entry.externalRefs == [] && comp.purl == None
          else entry.externalRefs == [Spdx.ExternalRef("PACKAGE-MANAGER", "purl", purl)] && comp.purl == Some(purl)
        case None => entry.externalRefs == [] && comp.purl == None)
    && (match pkg.downloadUrl
        case Some(url) =>
          if url == "" then entry.downloadLocation == "NOASSERTION" && comp.externalReferences == []
          else entry.downloadLocation == url && comp.externalReferences == [("distribution", url)]
        case None => entry.downloadLocation == "NOASSERTION" && comp.externalReferences == [])
    && entry.checksums == pkg.checksums && |comp.hashes| == |pkg.checksums|
    && (forall k | 0 <= k < |pkg.checksums| ::
          comp.hashes[k].1 == pkg.checksums[k].1 && IsCdxName(pkg.checksums[k].0, comp.hashes[k].0))
    && comp.kind == "library" && !entry.filesAnalyzed
    && entry.licenseConcluded == entry.copyrightText == entry.supplier == "NOASSERTION"
  }

  /** `cdx` is CycloneDX's name of a hash algorithm: the four SHA get a dash, others capitals. */
  predicate IsCdxName(algorithm: string, cdx: string) {
    if SameButCase(algorithm, "SHA1") then cdx == "SHA-1"
    else if SameButCase(algorithm, "SHA256") then cdx == "SHA-256"
    else if SameButCase(algorithm, "SHA384") then cdx == "SHA-384"
    else if SameButCase(algorithm, "SHA512") then cdx == "SHA-512"
    else SameButCase(algorithm, cdx) && forall i | 0 <= i < |cdx| :: !('a' <= cdx[i] <= 'z')
  }

  lemma {:induction false} UpperMeaning(s: string)
    ensures |Upper(s)| == |s|
    ensures forall i | 0 <= i < |s| :: SameLetter(s[i], Upper(s)[i]) && !('a' <= Upper(s)[i] <= 'z')
  {
    if s != "" { UpperMeaning(s[1..]); }
  }

  /** A text in capitals is the capitals of everything that differs from it in case. */
  lemma UpperIs(s: string, t: string)
    requires forall i | 0 <= i < |t| :: !('a' <= t[i] <= 'z')
    ensures SameButCase(s, t) <==> Upper(s) == t
  {
    UpperMeaning(s);
    if SameButCase(s, t) {
      forall i | 0 <= i < |s| ensures Upper(s)[i] == t[i] { assert SameLetter(s[i], t[i]); }
    }
  }

  lemma AlgorithmIsNamed(algorithm: string)
    ensures IsCdxName(algorithm, CdxAlgorithm(algorithm))
  {
    UpperMeaning(algorithm);
    UpperIs(algorithm, "SHA1");
    UpperIs(algorithm, "SHA256");
    UpperIs(algorithm, "SHA384");
    UpperIs(algorithm, "SHA512");
    hide Upper, SameLetter;
    assert "SHA1"[3..] == "1" && "SHA256"[3..] == "256" && "SHA384"[3..] == "384" && "SHA512"[3..] == "512";
    assert "SHA-" + "1" == "SHA-1" && "SHA-" + "256" == "SHA-256";
    assert "SHA-" + "384" == "SHA-384" && "SHA-" + "512" == "SHA-512";
  }

  /** Entry and component of a package say the same of it. */
  lemma PackageIsSaid(pkg: Package, id: string, lib: Library)
    ensures SaidInBoth(pkg, Spdx.EntryOf(pkg, id), ComponentOf(lib, pkg))
  {
    forall k | 0 <= k < |pkg.checksums| ensures IsCdxName(pkg.checksums[k].0, CdxAlgorithm(pkg.checksums[k].0)) {
      AlgorithmIsNamed(pkg.checksums[k].0);
    }
    hide IsCdxName, CdxAlgorithm, IsValidExpression, HasOperator, BomRef, Spdx.Comments;
  }

  /** So it is at every position of the two documents of one inventory. */
  lemma FormatsSayTheSame(spdx: Spdx.Document, cdx: Document, lib: Library, pkgs: seq<Package>, rootName: string,
                          rootVersion: string, graph: ResolvedGraph, created: string, i: nat)
    requires lib.Sound() && i < |pkgs|
    requires Spdx.IsSpdxOf(spdx, lib, pkgs, rootName, rootVersion, graph, created)
    requires IsCycloneDxOf(cdx, lib, pkgs, rootName, rootVersion, graph, created)
    ensures |spdx.packages| == |cdx.components| == |pkgs|
    ensures SaidInBoth(pkgs[i], spdx.packages[i], cdx.components[i])
  {
    hide SaidInBoth, Spdx.EntryOf, ComponentOf, Library.Sound, Spdx.IsFirstFree, BomRef, Spdx.CanonicalKey,
      AreDependencies;
    PackageIsSaid(pkgs[i], spdx.packages[i].spdxId, lib);
  }
}
