/** What both emitters share: each package gets a reference, and a package's resolved
    edges become the references of their targets, each once. */
module References {
  import opened Digraphs
  import opened Models
  import opened Resolve

  /** Identity to reference; a later package overwrites an earlier one. */
  function RefMap(pkgs: seq<Package>, refs: seq<string>): (m: map<string, string>)
    requires |refs| == |pkgs|
  {
    if pkgs == [] then map[] else
      var n := |pkgs| - 1;
      RefMap(pkgs[..n], refs[..n])[pkgs[n].Identity() := refs[n]]
  }

  lemma {:induction false} RefMapCovers(pkgs: seq<Package>, refs: seq<string>)
    requires |refs| == |pkgs|
    ensures forall i | 0 <= i < |pkgs| :: pkgs[i].Identity() in RefMap(pkgs, refs)
    ensures forall id | id in RefMap(pkgs, refs) :: RefMap(pkgs, refs)[id] in refs
  {
    hide Package.Identity;
    if pkgs != [] {
      var n := |pkgs| - 1;
      RefMapCovers(pkgs[..n], refs[..n]);
      forall i | 0 <= i < |pkgs| ensures pkgs[i].Identity() in RefMap(pkgs, refs) {
        if i < n { assert pkgs[..n][i] == pkgs[i]; }
      }
      forall id | id in RefMap(pkgs, refs) ensures RefMap(pkgs, refs)[id] in refs {
        if id != pkgs[n].Identity() { assert RefMap(pkgs[..n], refs[..n])[id] in refs[..n]; }
      }
    }
  }

  lemma {:induction false} RefMapExact(pkgs: seq<Package>, refs: seq<string>)
    requires |refs| == |pkgs| && DistinctIdentities(pkgs)
    ensures forall i | 0 <= i < |pkgs| ::
              pkgs[i].Identity() in RefMap(pkgs, refs) && RefMap(pkgs, refs)[pkgs[i].Identity()] == refs[i]
  {
    hide Package.Identity;
    if pkgs != [] {
      var n := |pkgs| - 1;
      RefMapExact(pkgs[..n], refs[..n]);
      forall i | 0 <= i < n
        ensures pkgs[i].Identity() in RefMap(pkgs, refs) && RefMap(pkgs, refs)[pkgs[i].Identity()] == refs[i]
      {
        assert pkgs[..n][i] == pkgs[i] && refs[..n][i] == refs[i];
      }
    }
  }

  /** The references of `targets`, without repetition, in order of first occurrence. */
  function TargetRefs(targets: seq<Package>, refOf: map<string, string>): seq<string> {
    if targets == [] then [] else
      var n := |targets| - 1;
      var before := TargetRefs(targets[..n], refOf);
      var id := targets[n].Identity();
      if id in refOf && refOf[id] != "" && refOf[id] !in before then before + [refOf[id]] else before
  }

  /** `p` is a target with reference `ref`. */
  predicate RefersTo(refOf: map<string, string>, p: Package, ref: string) {
    p.Identity() in refOf && refOf[p.Identity()] == ref && ref != ""
  }

  lemma {:induction false} TargetRefsMeaning(targets: seq<Package>, refOf: map<string, string>)
    ensures NoDuplicates(TargetRefs(targets, refOf))
    ensures forall ref :: ref in TargetRefs(targets, refOf) <==> exists t :: t in targets && RefersTo(refOf, t, ref)
  {
    hide Package.Identity;
    if targets != [] {
      var n := |targets| - 1;
      var last := targets[n];
      TargetRefsMeaning(targets[..n], refOf);
      assert targets == targets[..n] + [last];
      forall ref ensures ref in TargetRefs(targets, refOf) <==> exists t :: t in targets && RefersTo(refOf, t, ref) {
        if t :| t in targets && RefersTo(refOf, t, ref) {
          assert t in targets[..n] || t == last;
        }
        if ref in TargetRefs(targets, refOf) && ref !in TargetRefs(targets[..n], refOf) {
          assert RefersTo(refOf, last, ref);
        }
      }
    }
  }

  method CollectTargets(targets: seq<Package>, refOf: map<string, string>) returns (refs: seq<string>)
    ensures refs == TargetRefs(targets, refOf)
  {
    hide Package.Identity;
    refs := [];
    var seen: set<string> := {};
    for k := 0 to |targets|
      invariant refs == TargetRefs(targets[..k], refOf)
      invariant forall x :: x in seen <==> x in refs
    {
      assert targets[..k + 1][..k] == targets[..k];
      var id := targets[k].Identity();
      if id in refOf && refOf[id] != "" && refOf[id] !in seen {
        seen := seen + {refOf[id]};
        refs := refs + [refOf[id]];
      }
    }
    assert targets[..|targets|] == targets;
  }

  /** With distinct identities and distinct references, the references that package `i`
      points at are those of the packages it depends on, each once. */
  lemma TargetsEncodeDependence(pkgs: seq<Package>, graph: ResolvedGraph, refs: seq<string>, i: nat)
    requires IsResolution(graph, pkgs) && DistinctIdentities(pkgs)
    requires |refs| == |pkgs| && NoDuplicates(refs) && "" !in refs && i < |pkgs|
    ensures var out := TargetRefs(graph.EdgesOf(pkgs[i]), RefMap(pkgs, refs));
            && NoDuplicates(out)
            && (forall ref | ref in out :: ref in refs)
            && (forall j | 0 <= j < |pkgs| :: refs[j] in out <==> DependsOn(pkgs[i], pkgs[j]))
  {
    hide IsResolution, DistinctIdentities, NoDuplicates, Package.Identity, DependsOn, ResolvedGraph.EdgesOf, RefMap,
      TargetRefs;
    var p, refOf := pkgs[i], RefMap(pkgs, refs);
    var out := TargetRefs(graph.EdgesOf(p), refOf);
    TargetRefsMeaning(graph.EdgesOf(p), refOf);
    RefMapCovers(pkgs, refs);
    RefMapExact(pkgs, refs);
    forall j | 0 <= j < |pkgs| ensures refs[j] in out <==> DependsOn(p, pkgs[j]) {
      EdgeMeaning(graph, pkgs, p, pkgs[j]);
      if refs[j] in out {
        var t :| t in graph.EdgesOf(p) && RefersTo(refOf, t, refs[j]);
        EdgeMeaning(graph, pkgs, p, t);
        OnlyOneRefersTo(pkgs, refs, refOf, t, j);
      }
      if DependsOn(p, pkgs[j]) {
        assert refs[j] in refs;
        assert RefersTo(refOf, pkgs[j], refs[j]);
      }
    }
  }

  lemma OnlyOneRefersTo(pkgs: seq<Package>, refs: seq<string>, refOf: map<string, string>, t: Package, j: nat)
    requires |refs| == |pkgs| && NoDuplicates(refs) && j < |pkgs| && t in pkgs
    requires forall i | 0 <= i < |pkgs| :: pkgs[i].Identity() in refOf && refOf[pkgs[i].Identity()] == refs[i]
    requires RefersTo(refOf, t, refs[j])
    ensures t == pkgs[j]
  {
    hide Package.Identity;
    var k :| 0 <= k < |pkgs| && pkgs[k] == t;
    assert refs[k] == refs[j];
  }

  lemma {:induction false} CountInDistinct<T>(s: seq<T>, x: T)
    requires NoDuplicates(s)
    ensures multiset(s)[x] == if x in s then 1 else 0
  {
    if s != [] {
      var n := |s| - 1;
      assert s == s[..n] + [s[n]];
      CountInDistinct(s[..n], x);
    }
  }

  /** `"|".join` and its like. */
  function Join(separator: string, parts: seq<string>): string {
    if parts == [] then "" else if |parts| == 1 then parts[0] else
      Join(separator, parts[..|parts| - 1]) + separator + parts[|parts| - 1]
  }
}
