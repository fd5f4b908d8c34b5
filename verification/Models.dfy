/** The SBOM data model: packages, dependency edges and name normalisation. */
module Models {
  import opened Orders

  datatype Option<+T> = None | Some(value: T)

  const PYPI := "pypi"
  const NPM := "npm"

  /** `str.lower` on the ASCII letters. */
  function LowerChar(c: char): (r: char) {
    if 'A' <= c <= 'Z' then (c as int + 32) as char else c
  }

  function Lower(s: string): (r: string)
    ensures |r| == |s|
    ensures forall i | 0 <= i < |s| :: r[i] == LowerChar(s[i])
  {
    if s == [] then [] else [LowerChar(s[0])] + Lower(s[1..])
  }

  predicate IsSeparator(c: char) { c == '-' || c == '_' || c == '.' }

  /** `re.sub(r"[-_.]+", "-", name)`: `inRun` says that the previous character
      was a separator, whose dash is already out. */
  function Collapse(s: string, inRun: bool): string {
    if s == [] then []
    else if !IsSeparator(s[0]) then [s[0]] + Collapse(s[1..], false)
    else if inRun then Collapse(s[1..], true)
    else ['-'] + Collapse(s[1..], true)
  }

  function NormPypiName(name: string): string { Lower(Collapse(name, false)) }

  function NormNpmName(name: string): string { Lower(name) }

  function Norm(name: string, ecosystem: string): string {
    if ecosystem == PYPI then NormPypiName(name) else NormNpmName(name)
  }

  // ----- What the normal form of a name is

  /** One character, or the two cases of one ASCII letter. */
  predicate SameLetter(c: char, d: char) {
    || c == d
    || ('A' <= c <= 'Z' && d as int == c as int + 32)
    || ('A' <= d <= 'Z' && c as int == d as int + 32)
  }

  predicate SameButCase(a: string, b: string) {
    |a| == |b| && forall i | 0 <= i < |a| :: SameLetter(a[i], b[i])
  }

  predicate HasUpper(s: string) { exists i | 0 <= i < |s| :: 'A' <= s[i] <= 'Z' }

  /** How many dashes, underscores and dots a name starts with. */
  function RunLength(s: string): (n: nat)
    ensures n <= |s|
  {
    if s != "" && (s[0] == '-' || s[0] == '_' || s[0] == '.') then 1 + RunLength(s[1..]) else 0
  }

  /** Two spellings of one PyPI name, as PEP 503 compares them: read from the left, a run
      of separators stands against a run of separators, a letter against the same letter. */
  predicate SameProject(a: string, b: string) {
    var i, j := RunLength(a), RunLength(b);
    if i > 0 && j > 0 then SameProject(a[i..], b[j..])
    else if a == "" || b == "" then a == b
    else i == j == 0 && SameLetter(a[0], b[0]) && SameProject(a[1..], b[1..])
  }

  /** How PEP 503 writes the name of a project. */
  predicate Canonical(s: string) {
    && !HasUpper(s) && '_' !in s && '.' !in s
    && forall i | 0 <= i < |s| - 1 :: !(s[i] == '-' && s[i + 1] == '-')
  }

  lemma LowerMeaning(c: char, d: char)
    ensures LowerChar(c) == LowerChar(d) <==> SameLetter(c, d)
    ensures !('A' <= LowerChar(c) <= 'Z')
  {
  }

  /** Names of npm have one normal form exactly when they agree up to ASCII case. */
  lemma NpmNormIff(a: string, b: string)
    ensures NormNpmName(a) == NormNpmName(b) <==> SameButCase(a, b)
    ensures !HasUpper(NormNpmName(a)) && SameButCase(a, NormNpmName(a))
    ensures !HasUpper(a) ==> NormNpmName(a) == a
  {
    forall c, d ensures LowerChar(c) == LowerChar(d) <==> SameLetter(c, d) { LowerMeaning(c, d); }
    if SameButCase(a, b) {
      assert Lower(a) == Lower(b);
    } else if Lower(a) == Lower(b) {
      forall i | 0 <= i < |a| ensures SameLetter(a[i], b[i]) { assert Lower(a)[i] == Lower(b)[i]; }
    }
  }

  /** Inside a run everything up to its end is dropped. */
  lemma {:induction false} CollapseRun(s: string)
    ensures Collapse(s, true) == Collapse(s[RunLength(s)..], false)
  {
    if s != "" && IsSeparator(s[0]) {
      CollapseRun(s[1..]);
      assert s[1..][RunLength(s[1..])..] == s[RunLength(s)..];
    } else {
      assert s[0..] == s;
    }
  }

  /** The normal form, read from the left. */
  lemma NormStep(s: string)
    ensures NormPypiName("") == ""
    ensures RunLength(s) > 0 ==> NormPypiName(s) == "-" + NormPypiName(s[RunLength(s)..])
    ensures s != "" && RunLength(s) == 0 ==> NormPypiName(s) == [LowerChar(s[0])] + NormPypiName(s[1..])
    ensures RunLength(s) < |s| ==> RunLength(s[RunLength(s)..]) == 0
  {
    if RunLength(s) > 0 {
      CollapseRun(s[1..]);
      assert s[1..][RunLength(s[1..])..] == s[RunLength(s)..];
    }
    RunEnds(s);
  }

  lemma {:induction false} RunEnds(s: string)
    ensures RunLength(s[RunLength(s)..]) == 0
  {
    if RunLength(s) > 0 {
      RunEnds(s[1..]);
      assert s[1..][RunLength(s[1..])..] == s[RunLength(s)..];
    } else {
      assert s[0..] == s;
    }
  }

  /** Names of PyPI have one normal form exactly when they are spellings of one name. */
  lemma {:induction false} PypiNormIff(a: string, b: string)
    ensures NormPypiName(a) == NormPypiName(b) <==> SameProject(a, b)
  {
    hide Collapse, NormPypiName;
    var i, j := RunLength(a), RunLength(b);
    NormStep(a);
    NormStep(b);
    if a != "" && b != "" {
      var x, y := if i > 0 then a[i..] else a[1..], if j > 0 then b[j..] else b[1..];
      assert NormPypiName(a)[0] == (if i > 0 then '-' else LowerChar(a[0]));
      assert NormPypiName(b)[0] == (if j > 0 then '-' else LowerChar(b[0]));
      assert NormPypiName(a)[1..] == NormPypiName(x) && NormPypiName(b)[1..] == NormPypiName(y);
      LowerMeaning(a[0], b[0]);
      PypiNormIff(x, y);
    }
  }

  /** What a normal form looks like, and that such a name is its own normal form. */
  lemma {:induction false} NormIsCanonical(s: string)
    ensures Canonical(NormPypiName(s)) && (RunLength(s) == 0 ==> RunLength(NormPypiName(s)) == 0)
    ensures Canonical(s) ==> NormPypiName(s) == s
  {
    hide Collapse, NormPypiName;
    NormStep(s);
    var i := RunLength(s);
    if s != "" {
      var rest := if i > 0 then s[i..] else s[1..];
      var c := if i > 0 then '-' else LowerChar(s[0]);
      NormIsCanonical(rest);
      CanonicalTail(s, rest);
      CanonicalCons(c, NormPypiName(rest));
      if Canonical(s) { assert s == [s[0]] + s[1..] && (i > 0 ==> i == 1); }
    }
  }

  lemma CanonicalTail(s: string, rest: string)
    requires s != "" && (rest == s[1..] || (RunLength(s) > 0 && rest == s[RunLength(s)..]))
    ensures Canonical(s) ==> Canonical(rest) && RunLength(s) <= 1 && (s[0] == '-' || RunLength(s) == 0)
    ensures Canonical(s) && RunLength(s) == 0 ==> LowerChar(s[0]) == s[0]
  {
    if Canonical(s) {
      if RunLength(s) > 0 {
        assert s[0] in s;
        assert |s| > 1 ==> s[1..][0] == s[1] && s[1] in s;
      }
      var k := |s| - |rest|;
      forall i | 0 <= i < |rest| ensures rest[i] == s[k + i] && rest[i] in s { }
    }
  }

  lemma CanonicalCons(c: char, t: string)
    requires Canonical(t) && !('A' <= c <= 'Z') && c != '_' && c != '.' && (c == '-' ==> RunLength(t) == 0)
    ensures Canonical([c] + t)
  {
    var s := [c] + t;
    forall i | 0 <= i < |s| ensures s[i] == if i == 0 then c else t[i - 1] { }
  }

  /** The normal form of a PyPI name is the one canonical spelling of it. */
  lemma NormIsTheCanonicalSpelling(name: string, n: string)
    ensures n == NormPypiName(name) <==> Canonical(n) && SameProject(name, n)
  {
    hide NormPypiName, SameProject, Canonical;
    NormIsCanonical(name);
    NormIsCanonical(n);
    NormIsCanonical(NormPypiName(name));
    PypiNormIff(name, n);
  }

  lemma {:induction false} RunLengthOfConcat(a: string, b: string)
    ensures RunLength(a + b) == if RunLength(a) == |a| then |a| + RunLength(b) else RunLength(a)
  {
    if a == "" {
      assert a + b == b;
    } else {
      assert (a + b)[1..] == a[1..] + b;
      RunLengthOfConcat(a[1..], b);
    }
  }

  /** What is left of a name when its first run, or its first letter, is read. */
  lemma FirstRead(a: string, r: string, b: string)
    requires r != "" && RunLength(r) == |r|
    ensures var s := a + r + b; var i := RunLength(a);
      if i == |a| then RunLength(s) > 0 && s[RunLength(s)..] == b[RunLength(b)..]
      else RunLength(s) == i && s[i..] == a[i..] + r + b && s[1..] == a[1..] + r + b && s[0] == a[0]
  {
    hide RunLength;
    RunLengthOfConcat(a, r + b);
    RunLengthOfConcat(r, b);
    assert a + r + b == a + (r + b);
  }

  /** Which separators a run holds, and how many, does not matter. */
  lemma {:induction false} RunsAreOne(a: string, r: string, r': string, b: string)
    requires r != "" && RunLength(r) == |r| && r' != "" && RunLength(r') == |r'|
    ensures NormPypiName(a + r + b) == NormPypiName(a + r' + b)
  {
    hide NormPypiName, RunLength;
    NormStep(a + r + b);
    NormStep(a + r' + b);
    FirstRead(a, r, b);
    FirstRead(a, r', b);
    var i := RunLength(a);
    if i < |a| { RunsAreOne(if i > 0 then a[i..] else a[1..], r, r', b); }
  }

  predicate SeparatorFree(s: string) { '-' !in s && '_' !in s && '.' !in s }

  /** Names without separators have one normal form exactly when they agree up to ASCII case. */
  lemma {:induction false} PlainNamesAgreeIff(a: string, b: string)
    requires SeparatorFree(a) && SeparatorFree(b)
    ensures NormPypiName(a) == NormPypiName(b) <==> SameButCase(a, b)
  {
    hide NormPypiName, SameLetter;
    PypiNormIff(a, b);
    if a != "" && b != "" {
      assert a[0] in a && b[0] in b;
      PlainNamesAgreeIff(a[1..], b[1..]);
      PypiNormIff(a[1..], b[1..]);
      forall i | 0 < i < |a| && i < |b| ensures SameLetter(a[i], b[i]) <==> SameLetter(a[1..][i - 1], b[1..][i - 1]) { }
      if SameButCase(a[1..], b[1..]) && SameLetter(a[0], b[0]) {
        forall i | 0 <= i < |a| ensures SameLetter(a[i], b[i]) {
          if i > 0 { assert SameLetter(a[1..][i - 1], b[1..][i - 1]); }
        }
      }
      if SameButCase(a, b) {
        forall i | 0 <= i < |a| - 1 ensures SameLetter(a[1..][i], b[1..][i]) { assert SameLetter(a[i + 1], b[i + 1]); }
      }
    }
  }

  /** Two names of one ecosystem that stand for the same package. */
  predicate SameName(ecosystem: string, a: string, b: string) {
    if ecosystem == PYPI then SameProject(a, b) else SameButCase(a, b)
  }

  lemma NormIff(ecosystem: string, a: string, b: string)
    ensures Norm(a, ecosystem) == Norm(b, ecosystem) <==> SameName(ecosystem, a, b)
  {
    hide NormPypiName, NormNpmName;
    PypiNormIff(a, b);
    NpmNormIff(a, b);
  }

  /** White space, as `\s` in a pattern over text understands it. */
  predicate IsSpace(c: char) {
    var n := c as int;
    || 0x09 <= n <= 0x0d || 0x1c <= n <= 0x20 || n == 0x85 || n == 0xa0 || n == 0x1680
    || 0x2000 <= n <= 0x200a || n == 0x2028 || n == 0x2029 || n == 0x202f || n == 0x205f || n == 0x3000
  }

  datatype Dependency = Dependency(name: string, specifier: string)

  datatype Package = Package(
    name: string,
    version: string,
    ecosystem: string,
    source: string,
    licenseExpression: Option<string>,
    purl: Option<string>,
    downloadUrl: Option<string>,
    checksums: seq<(string, string)>,
    dependencies: seq<Dependency>,
    isDirect: bool,
    origin: Option<string>)
  {
    /** `f"{ecosystem}:{name}:{version}:{source}"` */
    function Identity(): string {
      ecosystem + ":" + name + ":" + version + ":" + source
    }

    /** The tuple that inventories are merged and sorted by. */
    function MergeKey(): Key { [ecosystem, name, version, source] }
  }

  /** A name-level graph node. */
  datatype Node = Node(ecosystem: string, name: string)

  function NodeKey(pkg: Package): Node {
    Node(pkg.ecosystem, Norm(pkg.name, pkg.ecosystem))
  }

  /** Packages share a node exactly when they share ecosystem and name, however that is spelled. */
  lemma NodeKeyIff(p: Package, q: Package)
    ensures NodeKey(p) == NodeKey(q) <==> p.ecosystem == q.ecosystem && SameName(p.ecosystem, p.name, q.name)
  {
    hide Norm;
    NormIff(p.ecosystem, p.name, q.name);
  }

  function NodeOrder(n: Node): Key { [n.ecosystem, n.name] }

  lemma NodeOrderInjective(s: set<Node>)
    ensures InjectiveOn(NodeOrder, s)
  {
    forall x, y | x in s && y in s && NodeOrder(x) == NodeOrder(y) ensures x == y {
      assert NodeOrder(x)[0] == NodeOrder(y)[0] && NodeOrder(x)[1] == NodeOrder(y)[1];
    }
  }

  /** Nodes are ordered by ecosystem and within one by name. */
  lemma NodeOrderMeaning(a: Node, b: Node)
    ensures KeyLess(NodeOrder(a), NodeOrder(b)) <==>
            StringLess(a.ecosystem, b.ecosystem) || (a.ecosystem == b.ecosystem && StringLess(a.name, b.name))
  {
    PairLess(a.ecosystem, a.name, b.ecosystem, b.name);
  }

  /** Packages are ordered by ecosystem, then name, then version, then source. */
  lemma MergeKeyOrder(p: Package, q: Package)
    ensures KeyLess(p.MergeKey(), q.MergeKey()) <==>
            || StringLess(p.ecosystem, q.ecosystem)
            || (p.ecosystem == q.ecosystem && StringLess(p.name, q.name))
            || (p.ecosystem == q.ecosystem && p.name == q.name && StringLess(p.version, q.version))
            || (p.ecosystem == q.ecosystem && p.name == q.name && p.version == q.version
                && StringLess(p.source, q.source))
  {
    hide KeyLess, StringLess;
    var p2, q2 := [p.version, p.source], [q.version, q.source];
    PairLess(p.version, p.source, q.version, q.source);
    ComesFirst(p.name, p2, q.name, q2);
    ComesFirst(p.ecosystem, [p.name] + p2, q.ecosystem, [q.name] + q2);
    assert p.MergeKey() == [p.ecosystem] + ([p.name] + p2) && q.MergeKey() == [q.ecosystem] + ([q.name] + q2);
  }

  /** `sorted(s)` of a set of nodes. */
  function SortNodes(s: set<Node>): (q: seq<Node>)
    ensures forall x :: x in q <==> x in s
    ensures |q| == |s|
  {
    Sorted(NodeOrder, s)
  }

  lemma SortNodesOrder(s: set<Node>)
    ensures var q := SortNodes(s); forall i, j | 0 <= i < j < |q| ::
      || StringLess(q[i].ecosystem, q[j].ecosystem)
      || (q[i].ecosystem == q[j].ecosystem && StringLess(q[i].name, q[j].name))
  {
    hide StringLess, KeyLess, NodeOrder;
    NodeOrderInjective(s);
    var q := SortNodes(s);
    forall i, j | 0 <= i < j < |q|
      ensures || StringLess(q[i].ecosystem, q[j].ecosystem)
              || (q[i].ecosystem == q[j].ecosystem && StringLess(q[i].name, q[j].name))
    {
      NodeOrderMeaning(q[i], q[j]);
    }
  }
}
