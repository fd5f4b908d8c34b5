/** What the content key, from which both documents derive their serial identity, tells of an inventory. */
module CanonicalKeys {
  import opened Models
  import opened Patterns
  import opened References
  import opened Spdx

  predicate Free(s: string, c: char) { c !in s }

  /** The fields that the key records, in the order of its lines. */
  function Row(p: Package): seq<string> {
    [p.ecosystem, p.name, p.version, OrElse(p.purl, ""), OrElse(p.licenseExpression, ""), OrElse(p.downloadUrl, "")]
  }

  /** Fields that hold neither a bar nor a line break, so that a line can be read back. */
  ghost predicate Plain(p: Package) {
    && (forall k | 0 <= k < 6 :: Free(Row(p)[k], '|') && Free(Row(p)[k], '\n'))
    && !("~" <= p.ecosystem)
    && forall d | d in p.dependencies :: Free(d.name, '\n') && Free(d.specifier, '\n')
  }

  ghost predicate SameRow(p: Package, q: Package) {
    && p.ecosystem == q.ecosystem && p.name == q.name && p.version == q.version
    && OrElse(p.purl, "") == OrElse(q.purl, "") && OrElse(p.downloadUrl, "") == OrElse(q.downloadUrl, "")
    && OrElse(p.licenseExpression, "") == OrElse(q.licenseExpression, "")
    && |p.dependencies| == |q.dependencies|
    && forall k | 0 <= k < |p.dependencies| ::
         p.dependencies[k].name + p.dependencies[k].specifier == q.dependencies[k].name + q.dependencies[k].specifier
  }

  ghost predicate SameRows(ps: seq<Package>, qs: seq<Package>) {
    |ps| == |qs| && forall i | 0 <= i < |ps| :: SameRow(ps[i], qs[i])
  }

  // ----- Joined texts read back

  /** The fields between the separators of a text. */
  function Fields(c: char, s: string): (fields: seq<string>)
    ensures fields != []
  {
    if s == "" then [""] else
      var front := Fields(c, s[..|s| - 1]);
      var d := s[|s| - 1];
      if d == c then front + [""] else front[..|front| - 1] + [front[|front| - 1] + [d]]
  }

  lemma FieldsStep(c: char, s: string, d: char)
    ensures var front := Fields(c, s);
      Fields(c, s + [d]) == if d == c then front + [""] else front[..|front| - 1] + [front[|front| - 1] + [d]]
  {
    assert (s + [d])[..|s|] == s;
  }

  lemma {:induction false} FieldGrows(c: char, s: string, x: string)
    requires Free(x, c)
    ensures var front := Fields(c, s); Fields(c, s + x) == front[..|front| - 1] + [front[|front| - 1] + x]
  {
    hide Fields;
    if x == "" {
      var front := Fields(c, s);
      assert s + x == s && front[|front| - 1] + x == front[|front| - 1];
      assert front == front[..|front| - 1] + [front[|front| - 1]];
    } else {
      var n := |x| - 1;
      FieldGrows(c, s, x[..n]);
      assert x[n] in x;
      FieldsStep(c, s + x[..n], x[n]);
      assert s + x == s + x[..n] + [x[n]] && x == x[..n] + [x[n]];
      var front, mid := Fields(c, s), Fields(c, s + x[..n]);
      assert mid[..|mid| - 1] == front[..|front| - 1];
      assert front[|front| - 1] + x[..n] + [x[n]] == front[|front| - 1] + x;
    }
  }

  /** Texts without the separator are read back from what joins them. */
  lemma {:induction false} JoinReadsBack(c: char, parts: seq<string>)
    requires parts != [] && forall k | 0 <= k < |parts| :: Free(parts[k], c)
    ensures Fields(c, Join([c], parts)) == parts
  {
    hide Fields, Join;
    var n := |parts| - 1;
    var x := parts[n];
    assert parts == parts[..n] + [x];
    if n == 0 {
      NoFields(c, x);
      FieldGrows(c, "", x);
      assert "" + x == x;
    } else {
      var front := Join([c], parts[..n]);
      JoinReadsBack(c, parts[..n]);
      JoinSnoc([c], parts[..n], x);
      FieldsStep(c, front, c);
      FieldGrows(c, front + [c], x);
      assert (parts[..n] + [""])[..n] == parts[..n] && "" + x == x;
    }
  }

  lemma NoFields(c: char, x: string)
    ensures Fields(c, "") == [""] && Join([c], [x]) == x
  {
  }

  lemma JoinSnoc(sep: string, parts: seq<string>, last: string)
    requires parts != []
    ensures Join(sep, parts + [last]) == Join(sep, parts) + sep + last
  {
    assert (parts + [last])[..|parts|] == parts;
  }

  lemma RowsTell(p: Package, q: Package)
    requires Plain(p) && Plain(q) && Join("|", Row(p)) == Join("|", Row(q))
    ensures Row(p) == Row(q)
  {
    JoinReadsBack('|', Row(p));
    JoinReadsBack('|', Row(q));
  }

  // ----- The lines of an inventory

  ghost predicate IsDependencyLine(line: string) { "~" <= line }

  lemma {:induction false} DependencyLinesAre(deps: seq<Dependency>)
    ensures |DependencyLines(deps)| == |deps|
    ensures forall k | 0 <= k < |deps| :: DependencyLines(deps)[k] == "~" + deps[k].name + deps[k].specifier
  {
    if deps != [] { DependencyLinesAre(deps[..|deps| - 1]); }
  }

  lemma LinesSnoc(pkgs: seq<Package>, p: Package)
    ensures PackageLines(pkgs + [p]) == PackageLines(pkgs) + [Join("|", Row(p))] + DependencyLines(p.dependencies)
    ensures PackageLines([]) == []
  {
    hide DependencyLines, Join;
    assert (pkgs + [p])[..|pkgs|] == pkgs;
  }

  lemma {:induction false} JoinIsFree(sep: string, parts: seq<string>, c: char)
    requires parts != [] && Free(sep, c) && forall k | 0 <= k < |parts| :: Free(parts[k], c)
    ensures Free(Join(sep, parts), c) && parts[0] <= Join(sep, parts)
  {
    var n := |parts| - 1;
    if n > 0 { JoinIsFree(sep, parts[..n], c); }
  }

  /** The line of a package is one line, and no dependency line. */
  lemma RowLine(p: Package)
    requires Plain(p)
    ensures Free(Join("|", Row(p)), '\n') && !IsDependencyLine(Join("|", Row(p)))
  {
    JoinIsFree("|", Row(p), '\n');
    var line := Join("|", Row(p));
    FirstOfLine(p.ecosystem, line, Row(p));
  }

  lemma FirstOfLine(ecosystem: string, line: string, row: seq<string>)
    requires |row| == 6 && row[0] == ecosystem && line == Join("|", row) && !("~" <= ecosystem)
    ensures !IsDependencyLine(line)
  {
    StartsWithRow(row, 5);
    assert row[..6] == row;
    assert (row[0] + "|")[0] == line[0] && (row[0] == "" || row[0][0] == line[0]);
  }

  lemma {:induction false} StartsWithRow(row: seq<string>, n: nat)
    requires 1 <= n < |row|
    ensures row[0] + "|" <= Join("|", row[..n + 1])
  {
    assert row[..n + 1] == row[..n] + [row[n]];
    JoinSnoc("|", row[..n], row[n]);
    if n > 1 { StartsWithRow(row, n - 1); } else { assert row[..1] == [row[0]]; }
  }

  /** How many dependency lines a list of lines ends with. */
  function Trailing(lines: seq<string>): (n: nat)
    ensures n <= |lines|
  {
    if lines != [] && "~" <= lines[|lines| - 1] then 1 + Trailing(lines[..|lines| - 1]) else 0
  }

  lemma {:induction false} TrailingIs(lines: seq<string>, more: seq<string>)
    requires lines != [] && !IsDependencyLine(lines[|lines| - 1])
    requires forall k | 0 <= k < |more| :: IsDependencyLine(more[k])
    ensures Trailing(lines + more) == |more|
  {
    if more != [] {
      var n := |more| - 1;
      TrailingIs(lines, more[..n]);
      assert (lines + more)[..|lines + more| - 1] == lines + more[..n];
      assert (lines + more)[|lines + more| - 1] == more[n];
      assert IsDependencyLine(more[n]);
    } else {
      assert lines + more == lines;
    }
  }

  /** The last package of an inventory can be told from its lines. */
  lemma LastPackage(pkgs: seq<Package>, p: Package)
    requires Plain(p)
    ensures var lines, n := PackageLines(pkgs + [p]), |p.dependencies|;
      && Trailing(lines) == n && |lines| == |PackageLines(pkgs)| + 1 + n
      && lines[..|lines| - 1 - n] == PackageLines(pkgs) && lines[|lines| - 1 - n] == Join("|", Row(p))
      && lines[|lines| - n..] == DependencyLines(p.dependencies)
  {
    hide PackageLines, DependencyLines, Plain, Row, Join, Trailing;
    LinesSnoc(pkgs, p);
    RowLine(p);
    DependencyLinesAre(p.dependencies);
    TrailingIs(PackageLines(pkgs) + [Join("|", Row(p))], DependencyLines(p.dependencies));
  }

  lemma SameRowIff(p: Package, q: Package)
    ensures SameRow(p, q) <==> Row(p) == Row(q) && DependencyLines(p.dependencies) == DependencyLines(q.dependencies)
  {
    DependencyLinesAre(p.dependencies);
    DependencyLinesAre(q.dependencies);
    var a, b := Row(p), Row(q);
    assert a == b ==> a[0] == b[0] && a[1] == b[1] && a[2] == b[2] && a[3] == b[3] && a[4] == b[4] && a[5] == b[5];
    if Row(p) == Row(q) && DependencyLines(p.dependencies) == DependencyLines(q.dependencies) {
      forall k | 0 <= k < |p.dependencies|
        ensures p.dependencies[k].name + p.dependencies[k].specifier
                == q.dependencies[k].name + q.dependencies[k].specifier
      {
        LineTells(p.dependencies[k].name, p.dependencies[k].specifier, q.dependencies[k].name,
                  q.dependencies[k].specifier, DependencyLines(p.dependencies)[k]);
      }
    }
    if SameRow(p, q) {
      forall k | 0 <= k < |p.dependencies|
        ensures DependencyLines(p.dependencies)[k] == DependencyLines(q.dependencies)[k]
      {
        LineTold(p.dependencies[k].name, p.dependencies[k].specifier, q.dependencies[k].name,
                 q.dependencies[k].specifier);
      }
    }
  }

  lemma LineTells(a: string, b: string, x: string, y: string, line: string)
    requires line == "~" + a + b && line == "~" + x + y
    ensures a + b == x + y
  {
    assert line[1..] == a + b && line[1..] == x + y;
  }

  lemma LineTold(a: string, b: string, x: string, y: string)
    requires a + b == x + y
    ensures "~" + a + b == "~" + x + y
  {
    assert "~" + a + b == "~" + (a + b) && "~" + x + y == "~" + (x + y);
  }

  // ----- What the key tells

  lemma {:induction false} LinesTell(ps: seq<Package>, qs: seq<Package>)
    requires (forall p | p in ps :: Plain(p)) && forall q | q in qs :: Plain(q)
    ensures PackageLines(ps) == PackageLines(qs) <==> SameRows(ps, qs)
  {
    hide PackageLines, DependencyLines, Plain, SameRow, Row, Join, Trailing;
    if ps == [] || qs == [] {
      LinesSnoc([], if ps == [] && qs == [] then SomePackage() else if ps == [] then qs[0] else ps[0]);
      if ps != [] { LinesThere(ps); }
      if qs != [] { LinesThere(qs); }
    } else {
      var m, n := |ps| - 1, |qs| - 1;
      var p, q := ps[m], qs[n];
      assert ps == ps[..m] + [p] && qs == qs[..n] + [q];
      LinesTell(ps[..m], qs[..n]);
      LastPackage(ps[..m], p);
      LastPackage(qs[..n], q);
      SameRowIff(p, q);
      if PackageLines(ps) == PackageLines(qs) { RowsTell(p, q); }
      RowsSnoc(ps[..m], p, qs[..n], q);
      LinesSnoc(ps[..m], p);
      LinesSnoc(qs[..n], q);
    }
  }

  function SomePackage(): Package { Package("", "", "", "", None, None, None, [], [], false, None) }

  lemma LinesThere(ps: seq<Package>)
    requires ps != []
    ensures PackageLines(ps) != []
  {
    hide PackageLines, DependencyLines, Row, Join;
    var m := |ps| - 1;
    assert ps == ps[..m] + [ps[m]];
    LinesSnoc(ps[..m], ps[m]);
  }

  lemma RowsSnoc(ps: seq<Package>, p: Package, qs: seq<Package>, q: Package)
    ensures SameRows(ps + [p], qs + [q]) <==> SameRows(ps, qs) && SameRow(p, q)
  {
    hide SameRow;
    if SameRows(ps + [p], qs + [q]) {
      assert SameRow((ps + [p])[|ps|], (qs + [q])[|ps|]);
      forall i | 0 <= i < |ps| ensures SameRow(ps[i], qs[i]) { assert SameRow((ps + [p])[i], (qs + [q])[i]); }
    }
  }

  lemma {:induction false} LinesAreFree(ps: seq<Package>, k: nat)
    requires (forall p | p in ps :: Plain(p)) && k < |PackageLines(ps)|
    ensures Free(PackageLines(ps)[k], '\n')
  {
    hide PackageLines, DependencyLines, Row, Join;
    if ps == [] {
      LinesSnoc([], SomePackage());
    } else {
      var m := |ps| - 1;
      assert ps == ps[..m] + [ps[m]];
      LinesSnoc(ps[..m], ps[m]);
      RowLine(ps[m]);
      DependencyLinesAre(ps[m].dependencies);
      if k < |PackageLines(ps[..m])| {
        LinesAreFree(ps[..m], k);
      } else if k > |PackageLines(ps[..m])| {
        var d := ps[m].dependencies[k - |PackageLines(ps[..m])| - 1];
        assert d in ps[m].dependencies;
      }
    }
  }

  /** The key is the same for two inventories, of roots of one text, exactly when they list the same
      ecosystems, names, versions, purls, licences, addresses and dependencies in the same order. */
  lemma KeyTellsRows(ps: seq<Package>, qs: seq<Package>, rootName: string, rootVersion: string)
    requires (forall p | p in ps :: Plain(p)) && forall q | q in qs :: Plain(q)
    requires Free(rootName, '\n') && Free(rootVersion, '\n')
    ensures CanonicalKey(ps, rootName, rootVersion) == CanonicalKey(qs, rootName, rootVersion) <==> SameRows(ps, qs)
  {
    hide PackageLines, Join, SameRows, Plain;
    var root := rootName + "@" + rootVersion;
    LinesTell(ps, qs);
    KeyReadsBack(ps, root);
    KeyReadsBack(qs, root);
    var a, b := [root] + PackageLines(ps), [root] + PackageLines(qs);
    assert a[1..] == PackageLines(ps) && b[1..] == PackageLines(qs);
  }

  lemma KeyReadsBack(ps: seq<Package>, root: string)
    requires (forall p | p in ps :: Plain(p)) && Free(root, '\n')
    ensures Fields('\n', Join("\n", [root] + PackageLines(ps))) == [root] + PackageLines(ps)
  {
    hide PackageLines, Join, Plain, Fields;
    var lines := [root] + PackageLines(ps);
    forall k | 0 <= k < |lines| ensures Free(lines[k], '\n') {
      if k > 0 { LinesAreFree(ps, k - 1); }
    }
    JoinReadsBack('\n', lines);
  }

  /** So the key does not change with every inventory: source, origin, checksums and directness of
      a package leave no trace in it. */
  lemma KeyForgets(ps: seq<Package>, i: nat, p: Package, rootName: string, rootVersion: string)
    requires i < |ps| && SameRow(ps[i], p)
    ensures CanonicalKey(ps[i := p], rootName, rootVersion) == CanonicalKey(ps, rootName, rootVersion)
  {
    hide PackageLines, Join;
    SameLines(ps, i, p);
  }

  lemma UnseenFields(ps: seq<Package>, i: nat, source: string, checksums: seq<(string, string)>, isDirect: bool,
                     origin: Option<string>, rootName: string, rootVersion: string)
    requires i < |ps|
    ensures var p := ps[i].(source := source, checksums := checksums, isDirect := isDirect, origin := origin);
      CanonicalKey(ps[i := p], rootName, rootVersion) == CanonicalKey(ps, rootName, rootVersion)
  {
    hide CanonicalKey;
    KeyForgets(ps, i, ps[i].(source := source, checksums := checksums, isDirect := isDirect, origin := origin),
               rootName, rootVersion);
  }

  lemma {:induction false} SameLines(ps: seq<Package>, i: nat, p: Package)
    requires i < |ps| && SameRow(ps[i], p)
    ensures PackageLines(ps[i := p]) == PackageLines(ps)
  {
    hide PackageLines, DependencyLines, Row, Join, SameRow;
    var m := |ps| - 1;
    var qs := ps[i := p];
    assert ps == ps[..m] + [ps[m]] && qs == qs[..m] + [qs[m]];
    LinesSnoc(ps[..m], ps[m]);
    LinesSnoc(qs[..m], qs[m]);
    if i < m {
      SameLines(ps[..m], i, p);
      assert qs[..m] == ps[..m][i := p];
    } else {
      SameRowIff(ps[i], p);
      assert qs[..m] == ps[..m];
    }
  }
}
