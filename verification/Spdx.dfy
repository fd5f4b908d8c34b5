/** SPDX 2.3: the emitter, the validator, and why the one accepts what the other prints. */
module Spdx {
  import opened Digraphs
  import opened Licenses
  import opened Models
  import opened Orders
  import opened Patterns
  import opened References
  import opened Resolve

  const DOCUMENT_ID := "SPDXRef-DOCUMENT"
  const NOASSERTION := "NOASSERTION"
  const DESCRIBES := "DESCRIBES"
  const DEPENDS_ON := "DEPENDS_ON"
  const URL_NAMESPACE := "6ba7b811-9dad-11d1-80b4-00c04fd430c8"
  const NAMESPACE_PREFIX := "https://sdmas.local/sbom/spdx/"
  const LICENSE_LIST_VERSION := "3.23"
  const QUIET_ORIGINS: set<string> := {"registry", "unknown", "venv", "venv-incomplete"}

  datatype ExternalRef = ExternalRef(category: string, kind: string, locator: string)

  datatype Entry = Entry(
    name: string,
    spdxId: string,
    versionInfo: string,
    filesAnalyzed: bool,
    downloadLocation: string,
    licenseConcluded: string,
    licenseDeclared: string,
    copyrightText: string,
    supplier: string,
    externalRefs: seq<ExternalRef>,
    checksums: seq<(string, string)>,
    comment: Option<string>)

  datatype Relationship = Relationship(element: string, kind: string, related: string)

  datatype Document = Document(
    spdxVersion: string,
    dataLicense: string,
    spdxId: string,
    name: string,
    namespace: string,
    created: string,
    creator: string,
    licenseListVersion: string,
    packages: seq<Entry>,
    relationships: seq<Relationship>)

  // ---------- identifiers ----------

  function SlugChar(c: char): char { if IsIdChar(c) then c else '-' }

  function Replaced(text: string): (r: string)
    ensures |r| == |text| && forall i | 0 <= i < |r| :: r[i] == if IsIdChar(text[i]) then text[i] else '-'
  {
    seq(|text|, i requires 0 <= i < |text| => SlugChar(text[i]))
  }

  /** `_slug` */
  function Slug(text: string): (r: string)
    ensures IsSpdxId(r)
    ensures text != "" && !IsDigit(text[0]) ==> |r| == |text| && r == Replaced(text)
    ensures text != "" && IsDigit(text[0]) ==> r == "P-" + Replaced(text)
    ensures text == "" ==> r == "SPDXRef-Package"
  {
    var out := Replaced(text);
    if out == "" then "SPDXRef-Package" else if IsDigit(out[0]) then "P-" + out else out
  }

  function BaseId(pkg: Package): string {
    Slug("SPDXRef-Package-" + pkg.ecosystem + "-" + pkg.name + "-" + pkg.version)
  }

  function Suffix(lib: Library, pkg: Package): string
    requires lib.Sound()
  {
    lib.sha256(pkg.Identity())[..8]
  }

  /** The candidate after `n` collisions. */
  function Candidate(base: string, suffix: string, n: nat): string {
    if n == 0 then base else base + "-" + suffix + "-" + Decimal(n)
  }

  lemma CandidatesDiffer(base: string, suffix: string, m: nat, n: nat)
    requires m < n
    ensures Candidate(base, suffix, m) != Candidate(base, suffix, n)
  {
    if m > 0 && Candidate(base, suffix, m) == Candidate(base, suffix, n) {
      var stem := base + "-" + suffix + "-";
      assert Candidate(base, suffix, m)[|stem|..] == Decimal(m);
      assert Candidate(base, suffix, n)[|stem|..] == Decimal(n);
      DecimalInjective(m, n);
    }
  }

  /** `id` is the first candidate that is not in `used`. */
  ghost predicate IsFirstFree(lib: Library, pkg: Package, used: set<string>, id: string)
    requires lib.Sound()
  {
    var base, suffix := BaseId(pkg), Suffix(lib, pkg);
    exists n: nat :: id == Candidate(base, suffix, n) && id !in used
                     && forall m: nat | m < n :: Candidate(base, suffix, m) in used
  }

  /** `spdx_id`; the loop ends because each round finds another member of `used`. */
  method SpdxId(lib: Library, pkg: Package, used: set<string>) returns (id: string, used': set<string>)
    requires lib.Sound()
    ensures IsFirstFree(lib, pkg, used, id)
    ensures used' == used + {id}
  {
    hide Decimal, Slug, Library.Sound, Package.Identity, BaseId, Suffix;
    var base := BaseId(pkg);
    var suffix := lib.sha256(pkg.Identity())[..8] by { HashIsLongEnough(lib, pkg); }
    SuffixIs(lib, pkg);
    id := base;
    var n := 0;
    ghost var tried: set<string> := {};
    while id in used
      invariant id == Candidate(base, suffix, n)
      invariant forall m: nat | m < n :: Candidate(base, suffix, m) in tried
      invariant forall x | x in tried :: exists m: nat :: m < n && x == Candidate(base, suffix, m)
      invariant tried <= used && |tried| == n
      decreases |used| - n
    {
      assert id !in tried by {
        forall m: nat | m < n ensures Candidate(base, suffix, m) != id { CandidatesDiffer(base, suffix, m, n); }
      }
      tried := tried + {id};
      SubsetIsSmaller(tried, used);
      n := n + 1;
      id := base + "-" + suffix + "-" + Decimal(n);
    }
    assert forall m: nat | m < n :: Candidate(base, suffix, m) in used;
    used' := used + {id};
  }

  lemma HashIsLongEnough(lib: Library, pkg: Package)
    requires lib.Sound()
    ensures |lib.sha256(pkg.Identity())| == 64
  {
  }

  lemma SuffixIs(lib: Library, pkg: Package)
    requires lib.Sound()
    ensures |lib.sha256(pkg.Identity())| == 64 && Suffix(lib, pkg) == lib.sha256(pkg.Identity())[..8]
  {
  }

  lemma {:induction false} SubsetIsSmaller<T>(a: set<T>, b: set<T>)
    requires a <= b
    ensures |a| <= |b|
  {
    if x :| x in a { SubsetIsSmaller(a - {x}, b - {x}); }
  }

  /** A package's id is fresh, inside the alphabet of clause 7.2 and not the document's. */
  lemma FreeIdIsGood(lib: Library, pkg: Package, used: set<string>, id: string)
    requires lib.Sound() && IsFirstFree(lib, pkg, used, id)
    ensures id !in used && IsSpdxId(id) && id != DOCUMENT_ID
  {
    var base, suffix := BaseId(pkg), Suffix(lib, pkg);
    var n: nat :| id == Candidate(base, suffix, n) && id !in used
                  && forall m: nat | m < n :: Candidate(base, suffix, m) in used;
    var text := "SPDXRef-Package-" + pkg.ecosystem + "-" + pkg.name + "-" + pkg.version;
    assert text[0] == 'S' && text[8] == 'P';
    assert base[8] == 'P' && id[8] == 'P';
  }

  /** The id of a package reads `SPDXRef-Package-`, ecosystem, name and version, with a dash for every
      character outside the alphabet; only if that is taken, eight digits of the hash of its identity
      and a number follow. */
  lemma IdReads(lib: Library, pkg: Package, used: set<string>, id: string)
    requires lib.Sound() && IsFirstFree(lib, pkg, used, id)
    ensures var text := "SPDXRef-Package-" + pkg.ecosystem + "-" + pkg.name + "-" + pkg.version;
      && |text| <= |id|
      && (forall i | 0 <= i < |text| :: id[i] == if IsIdChar(text[i]) then text[i] else '-')
      && (|id| == |text| <==> id[..|text|] !in used)
      && (|id| > |text| ==>
            exists n: nat :: n > 0
              && id[|text|..] == "-" + lib.sha256(pkg.Identity())[..8] + "-" + Decimal(n))
  {
    hide Decimal, Package.Identity;
    var base, suffix := BaseId(pkg), Suffix(lib, pkg);
    var text := "SPDXRef-Package-" + pkg.ecosystem + "-" + pkg.name + "-" + pkg.version;
    assert text[0] == 'S' && base == Replaced(text);
    var n: nat :| id == Candidate(base, suffix, n) && id !in used
                  && forall m: nat | m < n :: Candidate(base, suffix, m) in used;
    if n > 0 {
      assert Candidate(base, suffix, 0) == base;
      var rest := "-" + suffix + "-" + Decimal(n);
      assert id == base + rest && id[..|text|] == base && id[|text|..] == rest;
    } else {
      assert id[..|text|] == id;
    }
  }

  ghost predicate IdsAreFirstFree(lib: Library, pkgs: seq<Package>, ids: seq<string>)
    requires lib.Sound() && |ids| == |pkgs|
  {
    forall i | 0 <= i < |pkgs| :: IsFirstFree(lib, pkgs[i], Elements(ids[..i]), ids[i])
  }

  lemma IdsAreGood(lib: Library, pkgs: seq<Package>, ids: seq<string>)
    requires lib.Sound() && |ids| == |pkgs| && IdsAreFirstFree(lib, pkgs, ids)
    ensures NoDuplicates(ids)
    ensures forall i | 0 <= i < |ids| :: IsSpdxId(ids[i]) && ids[i] != DOCUMENT_ID
  {
    hide IsFirstFree, Library.Sound, IsSpdxId;
    forall i | 0 <= i < |ids| ensures IsSpdxId(ids[i]) && ids[i] != DOCUMENT_ID && ids[i] !in ids[..i] {
      FreeIdIsGood(lib, pkgs[i], Elements(ids[..i]), ids[i]);
    }
    forall i, j | 0 <= i < j < |ids| ensures ids[i] != ids[j] {
      assert ids[..j][i] == ids[i];
    }
  }

  // ---------- the document ----------

  /** `_spdx_license` */
  function DeclaredLicense(expr: Option<string>): (r: string)
    ensures r == NOASSERTION || IsValidExpression(r)
  {
    if Truthy(expr) && IsValidExpression(expr.value) then expr.value else NOASSERTION
  }

  function Comments(pkg: Package): seq<string> {
    (if Truthy(pkg.origin) && pkg.origin.value !in QUIET_ORIGINS then ["origin: " + pkg.origin.value] else [])
    + (if Truthy(pkg.licenseExpression) && DeclaredLicense(pkg.licenseExpression) == NOASSERTION
          && pkg.licenseExpression.value !in SPECIAL
       then ["original license metadata: " + pkg.licenseExpression.value] else [])
  }

  function EntryOf(pkg: Package, id: string): Entry {
    Entry(pkg.name, id, pkg.version, false, OrElse(pkg.downloadUrl, NOASSERTION), NOASSERTION,
          DeclaredLicense(pkg.licenseExpression), NOASSERTION, NOASSERTION,
          if Truthy(pkg.purl) then [ExternalRef("PACKAGE-MANAGER", "purl", pkg.purl.value)] else [],
          pkg.checksums,
          if Comments(pkg) == [] then None else Some(Join("; ", Comments(pkg))))
  }

  lemma SpecialIsValid(expr: string)
    requires expr in SPECIAL
    ensures IsValidExpression(expr)
  {
  }

  lemma EndsWith(front: string, last: string)
    ensures Contains(front + last, last)
  {
    assert (front + last)[|front|..|front| + |last|] == last;
    assert StartsWith(front + last, |front|, last);
  }

  /** The comment of an undeclared licence ends with its text. */
  lemma CommentEndsWithLicense(pkg: Package, id: string) returns (front: string)
    requires Truthy(pkg.licenseExpression) && !IsValidExpression(pkg.licenseExpression.value)
    requires pkg.licenseExpression.value !in SPECIAL
    ensures EntryOf(pkg, id).comment == Some(front + pkg.licenseExpression.value)
  {
    hide IsValidExpression;
    var expr := pkg.licenseExpression.value;
    var heading := "original license metadata: ";
    var origin :=
      if Truthy(pkg.origin) && pkg.origin.value !in QUIET_ORIGINS then ["origin: " + pkg.origin.value] else [];
    assert Comments(pkg) == origin + [heading + expr];
    if origin == [] {
      front := heading;
      assert Join("; ", [heading + expr]) == heading + expr;
    } else {
      front := origin[0] + "; " + heading;
      assert (origin + [heading + expr])[..1] == [origin[0]];
      assert Join("; ", origin + [heading + expr]) == origin[0] + "; " + (heading + expr);
      assert origin[0] + "; " + (heading + expr) == front + expr;
    }
  }

  /** No licence text is lost: it is declared or stands in the comment. */
  lemma LicenseIsKept(pkg: Package, id: string)
    requires Truthy(pkg.licenseExpression)
    ensures var expr, entry := pkg.licenseExpression.value, EntryOf(pkg, id);
      entry.licenseDeclared == expr || (entry.comment.Some? && Contains(entry.comment.value, expr))
  {
    hide IsValidExpression, Contains, Comments;
    var expr := pkg.licenseExpression.value;
    if expr in SPECIAL { SpecialIsValid(expr); }
    if !IsValidExpression(expr) {
      var front := CommentEndsWithLicense(pkg, id);
      EndsWith(front, expr);
    }
  }

  predicate Present(o: Option<string>) { o != None && o != Some("") }

  /** An origin worth a comment. */
  predicate OddOrigin(pkg: Package) {
    Present(pkg.origin) && pkg.origin.value != "registry" && pkg.origin.value != "unknown" && pkg.origin.value != "venv"
    && pkg.origin.value != "venv-incomplete"
  }

  /** A licence text that is not recognised. */
  predicate LostLicense(pkg: Package) {
    Present(pkg.licenseExpression) && !IsValidExpression(pkg.licenseExpression.value)
  }

  /** A recognised licence is declared; what is not recognised, and an odd origin, is told in the comment. */
  lemma CommentMeaning(pkg: Package, id: string)
    ensures var entry := EntryOf(pkg, id);
      && entry.licenseDeclared
         == (if Present(pkg.licenseExpression) && !LostLicense(pkg) then pkg.licenseExpression.value else "NOASSERTION")
      && entry.comment
         == (if OddOrigin(pkg) && LostLicense(pkg)
             then Some("origin: " + pkg.origin.value
                       + "; " + ("original license metadata: " + pkg.licenseExpression.value))
             else if OddOrigin(pkg) then Some("origin: " + pkg.origin.value)
             else if LostLicense(pkg) then Some("original license metadata: " + pkg.licenseExpression.value)
             else None)
  {
    hide IsValidExpression;
    if Present(pkg.licenseExpression) && pkg.licenseExpression.value in SPECIAL {
      SpecialIsValid(pkg.licenseExpression.value);
    }
    NoAssertionIsSpecial(pkg);
    hide SPECIAL;
    if OddOrigin(pkg) && LostLicense(pkg) {
      var one, two := "origin: " + pkg.origin.value, "original license metadata: " + pkg.licenseExpression.value;
      assert Comments(pkg) == [one, two] && [one, two][..1] == [one];
      assert Join("; ", [one]) == one && Join("; ", [one, two]) == one + "; " + two;
    }
  }

  lemma NoAssertionIsSpecial(pkg: Package)
    ensures NOASSERTION in SPECIAL && IsValidExpression(NOASSERTION)
    ensures LostLicense(pkg) ==> pkg.licenseExpression.value !in SPECIAL
  {
    hide SplitFrom;
  }

  function DependencyLines(deps: seq<Dependency>): seq<string> {
    if deps == [] then [] else
      DependencyLines(deps[..|deps| - 1]) + ["~" + deps[|deps| - 1].name + deps[|deps| - 1].specifier]
  }

  function PackageLines(pkgs: seq<Package>): seq<string> {
    if pkgs == [] then [] else
      var p := pkgs[|pkgs| - 1];
      PackageLines(pkgs[..|pkgs| - 1])
      + [Join("|", [p.ecosystem, p.name, p.version, OrElse(p.purl, ""), OrElse(p.licenseExpression, ""),
                    OrElse(p.downloadUrl, "")])]
      + DependencyLines(p.dependencies)
  }

  /** `_canonical_key` */
  function CanonicalKey(pkgs: seq<Package>, rootName: string, rootVersion: string): string {
    Join("\n", [rootName + "@" + rootVersion] + PackageLines(pkgs))
  }

  function Describing(pkgs: seq<Package>, refOf: map<string, string>): seq<Relationship>
    requires forall p | p in pkgs :: p.Identity() in refOf
  {
    seq(|pkgs|, i requires 0 <= i < |pkgs| => Relationship(DOCUMENT_ID, DESCRIBES, refOf[pkgs[i].Identity()]))
  }

  function Edges(source: string, targets: seq<string>): seq<Relationship> {
    seq(|targets|, k requires 0 <= k < |targets| => Relationship(source, DEPENDS_ON, targets[k]))
  }

  function Depending(pkgs: seq<Package>, refOf: map<string, string>, graph: ResolvedGraph): seq<Relationship>
    requires forall p | p in pkgs :: p.Identity() in refOf
  {
    if pkgs == [] then [] else
      var p := pkgs[|pkgs| - 1];
      Depending(pkgs[..|pkgs| - 1], refOf, graph)
      + Edges(refOf[p.Identity()], TargetRefs(graph.EdgesOf(p), refOf))
  }

  function EntryIds(entries: seq<Entry>): (ids: seq<string>)
    ensures |ids| == |entries| && forall i | 0 <= i < |ids| :: ids[i] == entries[i].spdxId
  {
    seq(|entries|, i requires 0 <= i < |entries| => entries[i].spdxId)
  }

  ghost predicate IsHeader(doc: Document, lib: Library, pkgs: seq<Package>, rootName: string, rootVersion: string,
                           created: string)
  {
    && doc.spdxVersion == "SPDX-2.3" && doc.dataLicense == "CC0-1.0" && doc.spdxId == DOCUMENT_ID
    && doc.name == rootName + "-" + rootVersion
    && doc.namespace == NAMESPACE_PREFIX + lib.uuid5(URL_NAMESPACE, CanonicalKey(pkgs, rootName, rootVersion))
    && doc.created == created && doc.licenseListVersion == LICENSE_LIST_VERSION
  }

  ghost predicate AreEntries(entries: seq<Entry>, lib: Library, pkgs: seq<Package>)
    requires lib.Sound()
  {
    && |entries| == |pkgs|
    && (forall i | 0 <= i < |pkgs| :: entries[i] == EntryOf(pkgs[i], entries[i].spdxId))
    && IdsAreFirstFree(lib, pkgs, EntryIds(entries))
  }

  ghost predicate AreRelationships(rels: seq<Relationship>, pkgs: seq<Package>, ids: seq<string>, graph: ResolvedGraph)
    requires |ids| == |pkgs|
  {
    RefMapCovers(pkgs, ids);
    rels == Describing(pkgs, RefMap(pkgs, ids)) + Depending(pkgs, RefMap(pkgs, ids), graph)
  }

  /** `doc` is what `build_spdx` returns. */
  ghost predicate IsSpdxOf(doc: Document, lib: Library, pkgs: seq<Package>, rootName: string, rootVersion: string,
                           graph: ResolvedGraph, created: string)
    requires lib.Sound()
  {
    && IsHeader(doc, lib, pkgs, rootName, rootVersion, created)
    && AreEntries(doc.packages, lib, pkgs)
    && AreRelationships(doc.relationships, pkgs, EntryIds(doc.packages), graph)
  }

  /** The optional fields of an entry, filled in as `build_spdx` does. */
  method MakeEntry(pkg: Package, id: string) returns (entry: Entry)
    ensures entry == EntryOf(pkg, id)
  {
    hide IsValidExpression, Package.Identity;
    var declared := DeclaredLicense(pkg.licenseExpression);
    var refs := [];
    if Truthy(pkg.purl) {
      refs := refs + [ExternalRef("PACKAGE-MANAGER", "purl", pkg.purl.value)];
    }
    var comments: seq<string> := [];
    if Truthy(pkg.origin) && pkg.origin.value !in QUIET_ORIGINS {
      comments := comments + ["origin: " + pkg.origin.value];
    }
    if Truthy(pkg.licenseExpression) && declared == NOASSERTION && pkg.licenseExpression.value !in SPECIAL {
      comments := comments + ["original license metadata: " + pkg.licenseExpression.value];
    }
    assert comments == Comments(pkg);
    entry := Entry(pkg.name, id, pkg.version, false, OrElse(pkg.downloadUrl, NOASSERTION), NOASSERTION, declared,
                   NOASSERTION, NOASSERTION, refs, pkg.checksums,
                   if comments != [] then Some(Join("; ", comments)) else None);
  }

  method BuildEntries(lib: Library, pkgs: seq<Package>) returns (entries: seq<Entry>, refOf: map<string, string>)
    requires lib.Sound()
    ensures AreEntries(entries, lib, pkgs)
    ensures refOf == RefMap(pkgs, EntryIds(entries))
  {
    hide IsFirstFree, Library.Sound, Package.Identity, EntryOf, Elements;
    var used: set<string> := {};
    entries, refOf := [], map[];
    ghost var ids: seq<string> := [];
    assert Elements<string>([]) == {} by { ElementsStart(); }
    for i := 0 to |pkgs|
      invariant |entries| == i && ids == EntryIds(entries)
      invariant used == Elements(ids)
      invariant refOf == RefMap(pkgs[..i], ids)
      invariant AreEntries(entries, lib, pkgs[..i])
    {
      var pkg := pkgs[i];
      var id;
      ghost var before, was := used, entries;
      id, used := SpdxId(lib, pkg, used);
      var entry := MakeEntry(pkg, id);
      EntryHasId(pkg, id);
      assert pkgs[..i + 1][..i] == pkgs[..i];
      EntriesStep(lib, pkgs[..i], was, pkg, entry);
      assert pkgs[..i + 1] == pkgs[..i] + [pkg];
      ElementsStep(ids, id);
      refOf := refOf[pkg.Identity() := id];
      entries := entries + [entry];
      ids := ids + [id];
      assert EntryIds(entries)[..i] == EntryIds(was);
      assert ids[..i] == EntryIds(was);
    }
    assert pkgs[..|pkgs|] == pkgs;
  }

  lemma ElementsStart()
    ensures Elements<string>([]) == {}
  {
  }

  lemma ElementsStep(ids: seq<string>, id: string)
    ensures Elements(ids + [id]) == Elements(ids) + {id}
  {
  }

  lemma EntryHasId(pkg: Package, id: string)
    ensures EntryOf(pkg, id).spdxId == id
  {
  }

  lemma EntriesStep(lib: Library, pkgs: seq<Package>, entries: seq<Entry>, pkg: Package, entry: Entry)
    requires lib.Sound() && AreEntries(entries, lib, pkgs)
    requires entry == EntryOf(pkg, entry.spdxId)
    requires IsFirstFree(lib, pkg, Elements(EntryIds(entries)), entry.spdxId)
    ensures AreEntries(entries + [entry], lib, pkgs + [pkg])
  {
    hide IsFirstFree, Library.Sound, EntryOf, Elements;
    var ids, ids' := EntryIds(entries), EntryIds(entries + [entry]);
    forall i | 0 <= i < |pkgs + [pkg]|
      ensures IsFirstFree(lib, (pkgs + [pkg])[i], Elements(ids'[..i]), ids'[i])
    {
      if i < |pkgs| {
        assert ids'[..i] == ids[..i];
      } else {
        assert ids'[..i] == ids;
      }
    }
  }

  method Relate(pkgs: seq<Package>, refOf: map<string, string>, graph: ResolvedGraph) returns (rels: seq<Relationship>)
    requires forall p | p in pkgs :: p.Identity() in refOf
    ensures rels == Describing(pkgs, refOf) + Depending(pkgs, refOf, graph)
  {
    hide TargetRefs, Package.Identity, ResolvedGraph.EdgesOf;
    rels := [];
    for i := 0 to |pkgs|
      invariant rels == Describing(pkgs, refOf)[..i]
    {
      rels := rels + [Relationship(DOCUMENT_ID, DESCRIBES, refOf[pkgs[i].Identity()])];
    }
    for i := 0 to |pkgs|
      invariant rels == Describing(pkgs, refOf) + Depending(pkgs[..i], refOf, graph)
    {
      assert pkgs[..i + 1][..i] == pkgs[..i];
      var targets := CollectTargets(graph.EdgesOf(pkgs[i]), refOf);
      for k := 0 to |targets|
        invariant rels == Describing(pkgs, refOf) + Depending(pkgs[..i], refOf, graph)
                          + Edges(refOf[pkgs[i].Identity()], targets)[..k]
      {
        rels := rels + [Relationship(refOf[pkgs[i].Identity()], DEPENDS_ON, targets[k])];
      }
    }
    assert pkgs[..|pkgs|] == pkgs;
  }

  method BuildSpdx(lib: Library, pkgs: seq<Package>, rootName: string, rootVersion: string, graph: ResolvedGraph,
                   created: string, toolCreator: string)
    returns (doc: Document)
    requires lib.Sound()
    ensures IsSpdxOf(doc, lib, pkgs, rootName, rootVersion, graph, created)
    ensures doc.creator == "Tool: " + toolCreator && doc.licenseListVersion == "3.23"
    ensures var key := CanonicalKey(pkgs, rootName, rootVersion);
      doc.namespace == "https://sdmas.local/sbom/spdx/" + lib.uuid5("6ba7b811-9dad-11d1-80b4-00c04fd430c8", key)
  {
    hide Library.Sound, AreEntries, RefMap, Package.Identity, CanonicalKey, Describing, Depending;
    var entries, refOf := BuildEntries(lib, pkgs);
    EntryPerPackage(entries, lib, pkgs);
    RefMapCovers(pkgs, EntryIds(entries));
    var rels := Relate(pkgs, refOf, graph);
    doc := Document("SPDX-2.3", "CC0-1.0", DOCUMENT_ID, rootName + "-" + rootVersion,
                    NAMESPACE_PREFIX + lib.uuid5(URL_NAMESPACE, CanonicalKey(pkgs, rootName, rootVersion)),
                    created, "Tool: " + toolCreator, LICENSE_LIST_VERSION, entries, rels);
  }

  lemma EntryPerPackage(entries: seq<Entry>, lib: Library, pkgs: seq<Package>)
    requires lib.Sound() && AreEntries(entries, lib, pkgs)
    ensures |entries| == |pkgs|
  {
  }
}
