/** The SPDX validator, and exactly which documents of the emitter it accepts. */
module SpdxValidation {
  import opened Digraphs
  import opened Licenses
  import opened Models
  import opened Orders
  import opened Patterns
  import opened References
  import opened Resolve
  import opened Spdx

  datatype Problem =
    | WrongVersion(found: string)
    | WrongDataLicense(found: string)
    | WrongDocumentId
    | BadNamespace(found: string)
    | BadCreated(found: string)
    | NoPackages
    | InvalidId(id: string)
    | DuplicateId(id: string)
    | MissingField(id: string, field: string)
    | InvalidLicense(id: string, expr: string)
    | MalformedPurl(id: string, locator: string)
    | UnknownElement(id: string)
    | UnknownRelated(id: string)

  ghost predicate HeaderFails(doc: Document, e: Problem) {
    match e
    case WrongVersion(v) => v == doc.spdxVersion && v != "SPDX-2.3"
    case WrongDataLicense(l) => l == doc.dataLicense && l != "CC0-1.0"
    case WrongDocumentId => doc.spdxId != DOCUMENT_ID
    case BadNamespace(ns) => ns == doc.namespace && !Contains(ns, "://")
    case BadCreated(t) => t == doc.created && !IsUtcTimestamp(t)
    case NoPackages => doc.packages == []
    case _ => false
  }

  /** What is wrong with an entry, given the ids known before it. */
  ghost predicate EntryFails(entry: Entry, known: set<string>, e: Problem) {
    match e
    case InvalidId(id) => id == entry.spdxId && !IsSpdxId(id)
    case DuplicateId(id) => id == entry.spdxId && IsSpdxId(id) && id in known
    case MissingField(id, field) =>
      id == entry.spdxId
      && ((field == "name" && entry.name == "") || (field == "downloadLocation" && entry.downloadLocation == ""))
    case InvalidLicense(id, expr) =>
      id == entry.spdxId && expr == entry.licenseDeclared && expr != NOASSERTION && !IsValidExpression(expr)
    case MalformedPurl(id, locator) =>
      id == entry.spdxId && !IsPurl(locator)
      && exists r :: r in entry.externalRefs && r.kind == "purl" && r.locator == locator
    case _ => false
  }

  ghost predicate RelationshipFails(rel: Relationship, known: set<string>, e: Problem) {
    match e
    case UnknownElement(id) => id == rel.element && id !in known
    case UnknownRelated(id) => id == rel.related && id !in known
    case _ => false
  }

  ghost function KnownIds(entries: seq<Entry>): set<string> {
    {DOCUMENT_ID} + Elements(EntryIds(entries))
  }

  ghost predicate SomeEntryFails(entries: seq<Entry>, e: Problem) {
    exists i :: 0 <= i < |entries| && EntryFails(entries[i], KnownIds(entries[..i]), e)
  }

  ghost predicate SomeRelationshipFails(rels: seq<Relationship>, known: set<string>, e: Problem) {
    exists k :: 0 <= k < |rels| && RelationshipFails(rels[k], known, e)
  }

  /** `e` is one of the problems of `doc`. */
  ghost predicate Fails(doc: Document, e: Problem) {
    || HeaderFails(doc, e)
    || SomeEntryFails(doc.packages, e)
    || SomeRelationshipFails(doc.relationships, KnownIds(doc.packages), e)
  }

  method CheckHeader(doc: Document) returns (errors: seq<Problem>)
    ensures forall e :: e in errors <==> HeaderFails(doc, e)
  {
    hide Contains, IsUtcTimestamp;
    errors := [];
    if doc.spdxVersion != "SPDX-2.3" { errors := errors + [WrongVersion(doc.spdxVersion)]; }
    if doc.dataLicense != "CC0-1.0" { errors := errors + [WrongDataLicense(doc.dataLicense)]; }
    if doc.spdxId != DOCUMENT_ID { errors := errors + [WrongDocumentId]; }
    if !Contains(doc.namespace, "://") { errors := errors + [BadNamespace(doc.namespace)]; }
    if !IsUtcTimestamp(doc.created) { errors := errors + [BadCreated(doc.created)]; }
    if doc.packages == [] { errors := errors + [NoPackages]; }
  }

  method CheckPurls(id: string, refs: seq<ExternalRef>) returns (errors: seq<Problem>)
    ensures forall e :: e in errors <==>
      e.MalformedPurl? && e.id == id && !IsPurl(e.locator)
      && exists r :: r in refs && r.kind == "purl" && r.locator == e.locator
  {
    hide IsPurl;
    errors := [];
    for k := 0 to |refs|
      invariant forall e :: e in errors <==>
        e.MalformedPurl? && e.id == id && !IsPurl(e.locator)
        && exists r :: r in refs[..k] && r.kind == "purl" && r.locator == e.locator
    {
      assert refs[..k + 1] == refs[..k] + [refs[k]];
      if refs[k].kind == "purl" && !IsPurl(refs[k].locator) {
        errors := errors + [MalformedPurl(id, refs[k].locator)];
      }
    }
    assert refs[..|refs|] == refs;
  }

  method CheckEntry(entry: Entry, known: set<string>) returns (errors: seq<Problem>)
    ensures forall e :: e in errors <==> EntryFails(entry, known, e)
  {
    hide IsSpdxId, IsValidExpression, IsPurl;
    var id := entry.spdxId;
    errors := [];
    if !IsSpdxId(id) {
      errors := errors + [InvalidId(id)];
    } else if id in known {
      errors := errors + [DuplicateId(id)];
    }
    if entry.name == "" { errors := errors + [MissingField(id, "name")]; }
    if entry.downloadLocation == "" { errors := errors + [MissingField(id, "downloadLocation")]; }
    if entry.licenseDeclared != NOASSERTION && !IsValidExpression(entry.licenseDeclared) {
      errors := errors + [InvalidLicense(id, entry.licenseDeclared)];
    }
    var fromRefs := CheckPurls(id, entry.externalRefs);
    errors := errors + fromRefs;
  }

  method CheckEntries(entries: seq<Entry>) returns (errors: seq<Problem>, known: set<string>)
    ensures forall e :: e in errors <==> SomeEntryFails(entries, e)
    ensures known == KnownIds(entries)
  {
    hide EntryFails;
    errors, known := [], {DOCUMENT_ID};
    for i := 0 to |entries|
      invariant known == KnownIds(entries[..i])
      invariant forall e :: e in errors <==> SomeEntryFails(entries[..i], e)
    {
      var more := CheckEntry(entries[i], known);
      forall e ensures e in errors + more <==> SomeEntryFails(entries[..i + 1], e) {
        EntryFailsStep(entries, i, e);
      }
      KnownIdsStep(entries, i);
      errors := errors + more;
      known := known + {entries[i].spdxId};
    }
    assert entries[..|entries|] == entries;
  }

  lemma KnownIdsStep(entries: seq<Entry>, i: nat)
    requires i < |entries|
    ensures KnownIds(entries[..i + 1]) == KnownIds(entries[..i]) + {entries[i].spdxId}
  {
    assert entries[..i + 1] == entries[..i] + [entries[i]];
  }

  lemma EntryFailsStep(entries: seq<Entry>, i: nat, e: Problem)
    requires i < |entries|
    ensures SomeEntryFails(entries[..i + 1], e) <==>
            SomeEntryFails(entries[..i], e) || EntryFails(entries[i], KnownIds(entries[..i]), e)
  {
    hide EntryFails, KnownIds;
    var now, before := entries[..i + 1], entries[..i];
    forall j | 0 <= j <= i ensures now[..j] == entries[..j] && (j < i ==> before[..j] == entries[..j]) {
    }
    if SomeEntryFails(now, e) {
      var j :| 0 <= j < |now| && EntryFails(now[j], KnownIds(now[..j]), e);
      if j < i { assert EntryFails(before[j], KnownIds(before[..j]), e); }
    }
    if SomeEntryFails(before, e) {
      var j :| 0 <= j < |before| && EntryFails(before[j], KnownIds(before[..j]), e);
      assert EntryFails(now[j], KnownIds(now[..j]), e);
    }
    if EntryFails(entries[i], KnownIds(entries[..i]), e) {
      assert EntryFails(now[i], KnownIds(now[..i]), e);
    }
  }

  /** `_validate_spdx`: reports exactly the problems that the document has. */
  method Validate(doc: Document) returns (errors: seq<Problem>)
    ensures forall e :: e in errors <==> Fails(doc, e)
  {
    hide HeaderFails, SomeEntryFails, KnownIds;
    errors := CheckHeader(doc);
    var more, known := CheckEntries(doc.packages);
    errors := errors + more;
    ghost var soFar := errors;
    for k := 0 to |doc.relationships|
      invariant forall e :: e in errors <==> e in soFar || SomeRelationshipFails(doc.relationships[..k], known, e)
    {
      var rel := doc.relationships[k];
      ghost var before := errors;
      if rel.element !in known { errors := errors + [UnknownElement(rel.element)]; }
      if rel.related !in known { errors := errors + [UnknownRelated(rel.related)]; }
      forall e ensures e in errors <==> e in soFar || SomeRelationshipFails(doc.relationships[..k + 1], known, e) {
        assert e in errors <==> e in before || RelationshipFails(rel, known, e);
      }
    }
    assert doc.relationships[..|doc.relationships|] == doc.relationships;
  }

  // ---------- what the emitter prints ----------

  ghost predicate Clean(pkg: Package) {
    pkg.name != "" && (Truthy(pkg.purl) ==> IsPurl(pkg.purl.value))
  }

  lemma NamespaceIsUri(doc: Document, lib: Library, pkgs: seq<Package>, rootName: string, rootVersion: string,
                       created: string)
    requires IsHeader(doc, lib, pkgs, rootName, rootVersion, created)
    ensures Contains(doc.namespace, "://")
  {
    hide CanonicalKey;
    var ns := doc.namespace;
    assert ns[5] == NAMESPACE_PREFIX[5] == ':' && ns[6] == NAMESPACE_PREFIX[6] == '/'
      && ns[7] == NAMESPACE_PREFIX[7] == '/';
    assert StartsWith(ns, 5, "://") by { assert ns[5..8] == "://"; }
  }

  lemma EntryIsFine(pkg: Package, id: string, known: set<string>, e: Problem)
    requires Clean(pkg) && IsSpdxId(id) && id !in known
    ensures !EntryFails(EntryOf(pkg, id), known, e)
  {
    hide IsSpdxId, IsValidExpression, IsPurl, Comments;
  }

  lemma EntryIsNotFine(pkg: Package, id: string, known: set<string>)
    requires !Clean(pkg)
    ensures exists e :: EntryFails(EntryOf(pkg, id), known, e)
  {
    hide IsSpdxId, IsValidExpression, IsPurl, Comments;
    var entry := EntryOf(pkg, id);
    if pkg.name == "" {
      assert EntryFails(entry, known, MissingField(id, "name"));
    } else {
      assert entry.externalRefs[0].kind == "purl";
      assert EntryFails(entry, known, MalformedPurl(id, pkg.purl.value));
    }
  }

  lemma UncleanIsReported(doc: Document, lib: Library, pkgs: seq<Package>, i: nat)
    requires lib.Sound() && AreEntries(doc.packages, lib, pkgs)
    requires i < |pkgs| && !Clean(pkgs[i])
    ensures exists e :: Fails(doc, e)
  {
    hide Library.Sound, EntryFails, EntryOf, Clean, IdsAreFirstFree;
    var known := KnownIds(doc.packages[..i]);
    EntryIsNotFine(pkgs[i], doc.packages[i].spdxId, known);
    var e :| EntryFails(doc.packages[i], known, e);
    assert Fails(doc, e);
  }

  lemma {:induction false} DependingStaysInside(pkgs: seq<Package>, refOf: map<string, string>, graph: ResolvedGraph,
                                                ids: set<string>)
    requires forall p | p in pkgs :: p.Identity() in refOf
    requires forall x | x in refOf :: refOf[x] in ids
    ensures forall r | r in Depending(pkgs, refOf, graph) :: r.element in ids && r.related in ids
  {
    hide Package.Identity, ResolvedGraph.EdgesOf, TargetRefs;
    if pkgs != [] {
      var p := pkgs[|pkgs| - 1];
      var targets := graph.EdgesOf(p);
      DependingStaysInside(pkgs[..|pkgs| - 1], refOf, graph, ids);
      TargetRefsMeaning(targets, refOf);
      forall r | r in Edges(refOf[p.Identity()], TargetRefs(targets, refOf))
        ensures r.element in ids && r.related in ids
      {
        assert r.related in TargetRefs(targets, refOf);
      }
    }
  }

  /** Every DEPENDS_ON relationship runs between two packages of the document. */
  lemma EdgesLinkPackages(doc: Document, pkgs: seq<Package>, graph: ResolvedGraph, r: Relationship)
    requires |doc.packages| == |pkgs| && AreRelationships(doc.relationships, pkgs, EntryIds(doc.packages), graph)
    requires r in doc.relationships && r.kind == DEPENDS_ON
    ensures r.element in EntryIds(doc.packages) && r.related in EntryIds(doc.packages)
  {
    hide Package.Identity, ResolvedGraph.EdgesOf, Depending, RefMap;
    var ids := EntryIds(doc.packages);
    RefMapCovers(pkgs, ids);
    var refOf := RefMap(pkgs, ids);
    DependingStaysInside(pkgs, refOf, graph, Elements(ids));
    assert r !in Describing(pkgs, refOf);
    assert r in Depending(pkgs, refOf, graph);
    assert r.element in Elements(ids);
  }

  lemma RelationshipsResolve(doc: Document, pkgs: seq<Package>, graph: ResolvedGraph)
    requires |doc.packages| == |pkgs| && AreRelationships(doc.relationships, pkgs, EntryIds(doc.packages), graph)
    ensures forall r | r in doc.relationships ::
      r.element in KnownIds(doc.packages) && r.related in KnownIds(doc.packages)
  {
    hide Package.Identity, ResolvedGraph.EdgesOf, Depending, RefMap;
    var ids := EntryIds(doc.packages);
    RefMapCovers(pkgs, ids);
    var refOf := RefMap(pkgs, ids);
    forall x | x in refOf ensures refOf[x] in KnownIds(doc.packages) { assert refOf[x] in ids; }
    DependingStaysInside(pkgs, refOf, graph, KnownIds(doc.packages));
  }

  /** The validator accepts what the emitter prints exactly when there is a package, the
      timestamp is well formed, every package has a name and every purl is well formed,
      whatever the licences, identities and edges are. */
  lemma AcceptsEmitted(doc: Document, lib: Library, pkgs: seq<Package>, rootName: string, rootVersion: string,
                       graph: ResolvedGraph, created: string)
    requires lib.Sound() && IsSpdxOf(doc, lib, pkgs, rootName, rootVersion, graph, created)
    ensures (forall e :: !Fails(doc, e)) <==>
            pkgs != [] && IsUtcTimestamp(created) && forall p | p in pkgs :: Clean(p)
  {
    hide Library.Sound, IsUtcTimestamp, EntryFails, EntryOf, Clean, Contains, IdsAreFirstFree, CanonicalKey,
      AreRelationships, IsSpdxId;
    IdsAreGood(lib, pkgs, EntryIds(doc.packages));
    if pkgs != [] && IsUtcTimestamp(created) && forall p | p in pkgs :: Clean(p) {
      forall e ensures !Fails(doc, e) {
        NamespaceIsUri(doc, lib, pkgs, rootName, rootVersion, created);
        RelationshipsResolve(doc, pkgs, graph);
        NoEntryFails(doc, lib, pkgs, e);
      }
    }
    if forall e :: !Fails(doc, e) {
      assert !Fails(doc, NoPackages) && !Fails(doc, BadCreated(created));
      forall p | p in pkgs ensures Clean(p) {
        var i :| 0 <= i < |pkgs| && pkgs[i] == p;
        if !Clean(p) { UncleanIsReported(doc, lib, pkgs, i); }
      }
    }
  }

  lemma NoEntryFails(doc: Document, lib: Library, pkgs: seq<Package>, e: Problem)
    requires lib.Sound() && AreEntries(doc.packages, lib, pkgs)
    requires forall p | p in pkgs :: Clean(p)
    ensures !SomeEntryFails(doc.packages, e)
  {
    hide Library.Sound, EntryFails, EntryOf, Clean, IdsAreFirstFree, IsSpdxId;
    var ids := EntryIds(doc.packages);
    IdsAreGood(lib, pkgs, ids);
    forall i | 0 <= i < |pkgs| ensures !EntryFails(doc.packages[i], KnownIds(doc.packages[..i]), e) {
      assert ids[i] !in KnownIds(doc.packages[..i]) by {
        assert EntryIds(doc.packages[..i]) == ids[..i];
      }
      EntryIsFine(pkgs[i], ids[i], KnownIds(doc.packages[..i]), e);
    }
  }

  // ---------- the edges ----------

  lemma EdgesHaveNoDuplicates(source: string, targets: seq<string>)
    requires NoDuplicates(targets)
    ensures NoDuplicates(Edges(source, targets))
    ensures forall r :: r in Edges(source, targets) <==>
              r.element == source && r.kind == DEPENDS_ON && r.related in targets
  {
    var es := Edges(source, targets);
    forall r: Relationship | r.element == source && r.kind == DEPENDS_ON && r.related in targets ensures r in es {
      var k :| 0 <= k < |targets| && targets[k] == r.related;
      assert es[k] == r;
    }
  }

  /** How often the first `n` packages' blocks hold the edge from `i` to `j`. */
  lemma {:induction false} CountEdges(pkgs: seq<Package>, graph: ResolvedGraph, ids: seq<string>, n: nat, i: nat,
                                      j: nat)
    requires IsResolution(graph, pkgs) && DistinctIdentities(pkgs)
    requires |ids| == |pkgs| && NoDuplicates(ids) && "" !in ids
    requires n <= |pkgs| && i < |pkgs| && j < |pkgs|
    requires forall p | p in pkgs :: p.Identity() in RefMap(pkgs, ids)
    ensures multiset(Depending(pkgs[..n], RefMap(pkgs, ids), graph))[Relationship(ids[i], DEPENDS_ON, ids[j])]
            == if i < n && DependsOn(pkgs[i], pkgs[j]) then 1 else 0
  {
    hide IsResolution, DistinctIdentities, Package.Identity, ResolvedGraph.EdgesOf, TargetRefs, RefMap, DependsOn,
      Edges;
    if n > 0 {
      var refOf, edge := RefMap(pkgs, ids), Relationship(ids[i], DEPENDS_ON, ids[j]);
      CountEdges(pkgs, graph, ids, n - 1, i, j);
      assert pkgs[..n][..n - 1] == pkgs[..n - 1];
      RefMapExact(pkgs, ids);
      TargetsEncodeDependence(pkgs, graph, ids, n - 1);
      var targets := TargetRefs(graph.EdgesOf(pkgs[n - 1]), refOf);
      EdgesHaveNoDuplicates(ids[n - 1], targets);
      CountInDistinct(Edges(ids[n - 1], targets), edge);
      assert Depending(pkgs[..n], refOf, graph) == Depending(pkgs[..n - 1], refOf, graph) + Edges(ids[n - 1], targets);
    }
  }

  /** The DESCRIBES block holds no edge between packages. */
  lemma NotDescribing(pkgs: seq<Package>, refOf: map<string, string>, r: Relationship)
    requires forall p | p in pkgs :: p.Identity() in refOf
    requires r.kind != DESCRIBES
    ensures multiset(Describing(pkgs, refOf))[r] == 0
  {
    hide Package.Identity;
    assert r !in Describing(pkgs, refOf);
  }

  lemma CountInRelationships(rels: seq<Relationship>, pkgs: seq<Package>, ids: seq<string>, graph: ResolvedGraph,
                             i: nat, j: nat)
    requires |ids| == |pkgs| && AreRelationships(rels, pkgs, ids, graph)
    requires IsResolution(graph, pkgs) && DistinctIdentities(pkgs)
    requires NoDuplicates(ids) && "" !in ids && i < |pkgs| && j < |pkgs|
    ensures multiset(rels)[Relationship(ids[i], DEPENDS_ON, ids[j])] == if DependsOn(pkgs[i], pkgs[j]) then 1 else 0
  {
    hide IsResolution, DistinctIdentities, Package.Identity, Depending, Describing, RefMap, DependsOn, NoDuplicates;
    RefMapCovers(pkgs, ids);
    var refOf, edge := RefMap(pkgs, ids), Relationship(ids[i], DEPENDS_ON, ids[j]);
    CountEdges(pkgs, graph, ids, |pkgs|, i, j);
    assert pkgs[..|pkgs|] == pkgs;
    NotDescribing(pkgs, refOf, edge);
    assert rels == Describing(pkgs, refOf) + Depending(pkgs, refOf, graph);
  }

  /** With distinct identities the document holds the edge from package `i` to package `j`
      exactly once if `i` depends on `j`, and not at all otherwise. */
  lemma SpdxEdges(doc: Document, lib: Library, pkgs: seq<Package>, rootName: string, rootVersion: string,
                  graph: ResolvedGraph, created: string, i: nat, j: nat)
    requires lib.Sound() && IsSpdxOf(doc, lib, pkgs, rootName, rootVersion, graph, created)
    requires IsResolution(graph, pkgs) && DistinctIdentities(pkgs)
    requires i < |pkgs| && j < |pkgs|
    ensures multiset(doc.relationships)[Relationship(doc.packages[i].spdxId, DEPENDS_ON, doc.packages[j].spdxId)]
            == if DependsOn(pkgs[i], pkgs[j]) then 1 else 0
  {
    hide *;
    SpdxParts(doc, lib, pkgs, rootName, rootVersion, graph, created);
    CountInRelationships(doc.relationships, pkgs, EntryIds(doc.packages), graph, i, j);
  }

  lemma {:induction false} DependingKinds(pkgs: seq<Package>, refOf: map<string, string>, graph: ResolvedGraph)
    requires forall p | p in pkgs :: p.Identity() in refOf
    ensures forall r | r in Depending(pkgs, refOf, graph) :: r.kind == "DEPENDS_ON"
  {
    hide Package.Identity, ResolvedGraph.EdgesOf, TargetRefs;
    if pkgs != [] { DependingKinds(pkgs[..|pkgs| - 1], refOf, graph); }
  }

  lemma DescribingIs(rels: seq<Relationship>, pkgs: seq<Package>, ids: seq<string>, graph: ResolvedGraph)
    requires |ids| == |pkgs| && AreRelationships(rels, pkgs, ids, graph) && DistinctIdentities(pkgs)
    ensures |pkgs| <= |rels|
    ensures forall i | 0 <= i < |pkgs| :: rels[i] == Relationship("SPDXRef-DOCUMENT", "DESCRIBES", ids[i])
    ensures forall k | |pkgs| <= k < |rels| :: rels[k].kind == "DEPENDS_ON"
  {
    hide Package.Identity, RefMap, DistinctIdentities, Depending;
    RefMapCovers(pkgs, ids);
    RefMapExact(pkgs, ids);
    DependingKinds(pkgs, RefMap(pkgs, ids), graph);
    forall k | |pkgs| <= k < |rels| ensures rels[k].kind == "DEPENDS_ON" {
      assert rels[k] in Depending(pkgs, RefMap(pkgs, ids), graph);
    }
  }

  /** The document first describes every package, in order and once, and then only states dependencies. */
  lemma DescribesEveryPackage(doc: Document, lib: Library, pkgs: seq<Package>, rootName: string, rootVersion: string,
                              graph: ResolvedGraph, created: string)
    requires lib.Sound() && IsSpdxOf(doc, lib, pkgs, rootName, rootVersion, graph, created)
    requires DistinctIdentities(pkgs)
    ensures |doc.packages| == |pkgs| <= |doc.relationships|
    ensures forall i | 0 <= i < |pkgs| ::
              doc.relationships[i] == Relationship("SPDXRef-DOCUMENT", "DESCRIBES", doc.packages[i].spdxId)
    ensures forall k | |pkgs| <= k < |doc.relationships| :: doc.relationships[k].kind == "DEPENDS_ON"
  {
    hide IsSpdxOf, AreRelationships, DistinctIdentities, Library.Sound, NoDuplicates;
    SpdxParts(doc, lib, pkgs, rootName, rootVersion, graph, created);
    DescribingIs(doc.relationships, pkgs, EntryIds(doc.packages), graph);
  }

  lemma SpdxParts(doc: Document, lib: Library, pkgs: seq<Package>, rootName: string, rootVersion: string,
                  graph: ResolvedGraph, created: string)
    requires lib.Sound() && IsSpdxOf(doc, lib, pkgs, rootName, rootVersion, graph, created)
    ensures |doc.packages| == |pkgs|
    ensures NoDuplicates(EntryIds(doc.packages)) && "" !in EntryIds(doc.packages)
    ensures AreRelationships(doc.relationships, pkgs, EntryIds(doc.packages), graph)
  {
    hide Library.Sound, IsHeader, EntryOf, IdsAreFirstFree, AreRelationships, IsSpdxId;
    IdsAreGood(lib, pkgs, EntryIds(doc.packages));
    NoEmptyId(EntryIds(doc.packages));
  }

  lemma NoEmptyId(ids: seq<string>)
    requires forall i | 0 <= i < |ids| :: IsSpdxId(ids[i])
    ensures "" !in ids
  {
  }

  // ---------- what acceptance means ----------

  ghost predicate KnownEnd(doc: Document, id: string) {
    id == "SPDXRef-DOCUMENT" || exists i :: 0 <= i < |doc.packages| && doc.packages[i].spdxId == id
  }

  ghost predicate GoodEntry(entry: Entry) {
    && IsSpdxId(entry.spdxId) && entry.spdxId != "SPDXRef-DOCUMENT"
    && entry.name != "" && entry.downloadLocation != ""
    && (entry.licenseDeclared == "NOASSERTION" || IsValidExpression(entry.licenseDeclared))
    && forall r | r in entry.externalRefs && r.kind == "purl" :: IsPurl(r.locator)
  }

  /** A document of SPDX 2.3 as the validator understands it, without the order in which it looks. */
  ghost predicate WellFormed(doc: Document) {
    && doc.spdxVersion == "SPDX-2.3" && doc.dataLicense == "CC0-1.0" && doc.spdxId == "SPDXRef-DOCUMENT"
    && Contains(doc.namespace, "://") && IsUtcTimestamp(doc.created) && doc.packages != []
    && (forall i | 0 <= i < |doc.packages| :: GoodEntry(doc.packages[i]))
    && (forall i, j | 0 <= i < j < |doc.packages| :: doc.packages[i].spdxId != doc.packages[j].spdxId)
    && forall r | r in doc.relationships :: KnownEnd(doc, r.element) && KnownEnd(doc, r.related)
  }

  lemma KnownIdsMeaning(entries: seq<Entry>, id: string)
    ensures id in KnownIds(entries) <==>
            id == "SPDXRef-DOCUMENT" || exists i :: 0 <= i < |entries| && entries[i].spdxId == id
  {
    if i :| 0 <= i < |entries| && entries[i].spdxId == id { assert EntryIds(entries)[i] == id; }
  }

  /** Whatever the document: an entry is passed, after those before it, exactly when it is good and its id new. */
  lemma EntryPasses(entries: seq<Entry>, i: nat)
    requires i < |entries|
    ensures (forall e :: !EntryFails(entries[i], KnownIds(entries[..i]), e)) <==>
            GoodEntry(entries[i]) && forall j | 0 <= j < i :: entries[j].spdxId != entries[i].spdxId
  {
    hide IsSpdxId, IsPurl, IsValidExpression, KnownIds;
    var entry, known := entries[i], KnownIds(entries[..i]);
    KnownIdsMeaning(entries[..i], entry.spdxId);
    assert forall j | 0 <= j < i :: entries[..i][j] == entries[j];
    if forall e :: !EntryFails(entry, known, e) {
      assert !EntryFails(entry, known, InvalidId(entry.spdxId)) && !EntryFails(entry, known, DuplicateId(entry.spdxId));
      assert !EntryFails(entry, known, MissingField(entry.spdxId, "name"));
      assert !EntryFails(entry, known, MissingField(entry.spdxId, "downloadLocation"));
      assert !EntryFails(entry, known, InvalidLicense(entry.spdxId, entry.licenseDeclared));
      forall r | r in entry.externalRefs && r.kind == "purl" ensures IsPurl(r.locator) {
        assert !EntryFails(entry, known, MalformedPurl(entry.spdxId, r.locator));
      }
    }
  }

  lemma HeaderPasses(doc: Document)
    ensures (forall e :: !HeaderFails(doc, e)) <==>
            && doc.spdxVersion == "SPDX-2.3" && doc.dataLicense == "CC0-1.0" && doc.spdxId == "SPDXRef-DOCUMENT"
            && Contains(doc.namespace, "://") && IsUtcTimestamp(doc.created) && doc.packages != []
  {
    hide Contains, IsUtcTimestamp;
    if forall e :: !HeaderFails(doc, e) {
      assert !HeaderFails(doc, WrongVersion(doc.spdxVersion)) && !HeaderFails(doc, WrongDataLicense(doc.dataLicense));
      assert !HeaderFails(doc, WrongDocumentId) && !HeaderFails(doc, BadNamespace(doc.namespace));
      assert !HeaderFails(doc, BadCreated(doc.created)) && !HeaderFails(doc, NoPackages);
    }
  }

  lemma RelationshipPasses(doc: Document, rel: Relationship)
    ensures (forall e :: !RelationshipFails(rel, KnownIds(doc.packages), e)) <==>
            KnownEnd(doc, rel.element) && KnownEnd(doc, rel.related)
  {
    hide KnownIds;
    var known := KnownIds(doc.packages);
    KnownIdsMeaning(doc.packages, rel.element);
    KnownIdsMeaning(doc.packages, rel.related);
    if forall e :: !RelationshipFails(rel, known, e) {
      assert !RelationshipFails(rel, known, UnknownElement(rel.element));
      assert !RelationshipFails(rel, known, UnknownRelated(rel.related));
    }
  }

  /** The validator accepts exactly the well-formed documents. */
  lemma AcceptsWellFormed(doc: Document)
    ensures (forall e :: !Fails(doc, e)) <==> WellFormed(doc)
  {
    hide HeaderFails, EntryFails, RelationshipFails, KnownIds, KnownEnd, GoodEntry, Contains, IsUtcTimestamp;
    HeaderPasses(doc);
    forall i: nat | i < |doc.packages|
      ensures (forall e :: !EntryFails(doc.packages[i], KnownIds(doc.packages[..i]), e)) <==>
              GoodEntry(doc.packages[i]) && forall j | 0 <= j < i :: doc.packages[j].spdxId != doc.packages[i].spdxId
    {
      EntryPasses(doc.packages, i);
    }
    forall r ensures (forall e :: !RelationshipFails(r, KnownIds(doc.packages), e)) <==>
                     KnownEnd(doc, r.element) && KnownEnd(doc, r.related) {
      RelationshipPasses(doc, r);
    }
    if forall e :: !Fails(doc, e) {
      forall e ensures !HeaderFails(doc, e) { assert !Fails(doc, e); }
      forall i, e | 0 <= i < |doc.packages| ensures !EntryFails(doc.packages[i], KnownIds(doc.packages[..i]), e) {
        assert !Fails(doc, e);
      }
      forall r, e | r in doc.relationships ensures !RelationshipFails(r, KnownIds(doc.packages), e) {
        assert !Fails(doc, e);
        var k :| 0 <= k < |doc.relationships| && doc.relationships[k] == r;
      }
    }
    if WellFormed(doc) {
      forall e ensures !Fails(doc, e) {
        forall k | 0 <= k < |doc.relationships|
          ensures !RelationshipFails(doc.relationships[k], KnownIds(doc.packages), e)
        {
          assert doc.relationships[k] in doc.relationships;
        }
      }
    }
  }
}
