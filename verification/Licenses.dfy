/** Licence expressions, as emitters and validator both judge them. */
module Licenses {
  import opened Models

  /** The recognised ids, in two halves. */
  const COMMON_SPDX_IDS: set<string> := FIRST_IDS + LATER_IDS

  const FIRST_IDS: set<string> := {
    "MIT", "Apache-2.0", "BSD-2-Clause", "BSD-3-Clause", "ISC", "GPL-2.0-only", "GPL-2.0-or-later",
    "GPL-3.0-only", "GPL-3.0-or-later", "LGPL-2.0-only", "LGPL-2.0-or-later", "LGPL-2.1-only",
    "LGPL-2.1-or-later", "LGPL-3.0-only", "LGPL-3.0-or-later", "MPL-2.0", "AGPL-3.0-only",
    "AGPL-3.0-or-later", "0BSD", "CC0-1.0", "CC-BY-4.0", "CC-BY-SA-4.0", "Unlicense", "Python-2.0", "Zlib",
    "BSL-1.0" }

  const LATER_IDS: set<string> := {
    "EPL-2.0", "OFL-1.1", "Artistic-2.0", "WTFPL", "PostgreSQL", "Apache-1.1", "BlueOak-1.0.0", "MIT-0",
    "BSD-1-Clause", "BSD-4-Clause", "AFL-3.0", "CDDL-1.0", "CDDL-1.1", "CC-BY-3.0", "EPL-1.0", "GPL-1.0-only",
    "OpenSSL", "Ruby", "X11", "W3C", "ZPL-2.1", "Unicode-DFS-2016", "NCSA", "HPND", "Vim", "UPL-1.0" }

  const SPECIAL: set<string> := { "NOASSERTION", "NONE" }

  predicate Listed(id: string) { id in COMMON_SPDX_IDS || id in SPECIAL }

  /** The first position from `i` on that is not white space. */
  function SkipSpaces(s: string, i: nat): (j: nat)
    requires i <= |s|
    ensures i <= j <= |s|
    decreases |s| - i
  {
    if i < |s| && IsSpace(s[i]) then SkipSpaces(s, i + 1) else i
  }

  predicate StartsWith(s: string, i: nat, word: string) {
    i + |word| <= |s| && s[i..i + |word|] == word
  }

  /** The length of the operator word at `i`, or 0. */
  function OperatorAt(s: string, i: nat): (n: nat)
    ensures i <= |s| ==> i + n <= |s|
  {
    if StartsWith(s, i, "AND") then 3
    else if StartsWith(s, i, "OR") then 2
    else if StartsWith(s, i, "WITH") then 4
    else 0
  }

  /** Where the separator `\s+(AND|OR|WITH)\s+` that starts at `i` ends. */
  function SeparatorEnd(s: string, i: nat): (e: Option<nat>)
    requires i < |s|
    ensures e.Some? ==> i < e.value <= |s|
  {
    if !IsSpace(s[i]) then None else
      var j := SkipSpaces(s, i);
      var k := OperatorAt(s, j);
      if k > 0 && j + k < |s| && IsSpace(s[j + k]) then Some(SkipSpaces(s, j + k)) else None
  }

  /** `re.split`, scanning from `i` for the token that began at `start`. */
  function SplitFrom(s: string, start: nat, i: nat): seq<string>
    requires start <= i <= |s|
    decreases |s| - i
  {
    if i == |s| then [s[start..]] else
      match SeparatorEnd(s, i)
      case Some(e) => [s[start..i]] + SplitFrom(s, e, e)
      case None => SplitFrom(s, start, i + 1)
  }

  predicate IsPadding(c: char) { c == '(' || c == ')' || c == ' ' }

  /** `t.strip("() ")` */
  function Strip(t: string): string {
    if t == [] then t
    else if IsPadding(t[0]) then Strip(t[1..])
    else if IsPadding(t[|t| - 1]) then Strip(t[..|t| - 1])
    else t
  }

  /** A token of an expression: a listed id, padding aside. */
  predicate Recognised(token: string) { Strip(token) in COMMON_SPDX_IDS }

  /** `is_valid_expression` */
  predicate IsValidExpression(expr: string) {
    expr in SPECIAL
    || var tokens := SplitFrom(expr, 0, 0); forall i | 0 <= i < |tokens| :: Recognised(tokens[i])
  }

  /** `word in s` */
  predicate Contains(s: string, word: string) {
    exists i :: 0 <= i <= |s| && StartsWith(s, i, word)
  }

  /** Some operator stands in the text between single blanks. */
  predicate HasOperator(expr: string) {
    Contains(expr, " AND ") || Contains(expr, " OR ") || Contains(expr, " WITH ")
  }

  const PARENTHESISED := "(MIT)"

  lemma NoSeparatorIn(s: string, start: nat, i: nat)
    requires start <= i <= |s| && forall k | i <= k < |s| :: !IsSpace(s[k])
    ensures SplitFrom(s, start, i) == [s[start..]]
    decreases |s| - i
  {
  }

  lemma NoBlankNoOperator(s: string)
    requires ' ' !in s
    ensures !HasOperator(s)
  {
    forall i, word | 0 <= i <= |s| && |word| > 0 && StartsWith(s, i, word) ensures word[0] in s {
      assert s[i..i + |word|][0] == s[i];
    }
  }

  lemma NoListedIdStartsWithAParenthesis(id: string)
    requires Listed(id)
    ensures id != [] && id[0] != '('
  {
    if id in FIRST_IDS { FirstIdsAreBare(id); } else if id in LATER_IDS { LaterIdsAreBare(id); }
  }

  lemma FirstIdsAreBare(id: string)
    requires id in FIRST_IDS
    ensures id != [] && id[0] != '('
  {
  }

  lemma LaterIdsAreBare(id: string)
    requires id in LATER_IDS
    ensures id != [] && id[0] != '('
  {
  }

  /** A recognised expression that is neither a listed id nor has an operator. */
  lemma ParenthesisedIsRecognised()
    ensures IsValidExpression(PARENTHESISED) && !Listed(PARENTHESISED) && !HasOperator(PARENTHESISED)
  {
    var s := PARENTHESISED;
    NoSeparatorIn(s, 0, 0);
    assert s[0..] == s;
    assert Strip(s) == "MIT" by {
      assert s[1..] == "MIT)";
      assert "MIT)"[..3] == "MIT";
      assert Strip("MIT") == "MIT";
      assert Strip("MIT)") == Strip("MIT");
    }
    if Listed(s) { NoListedIdStartsWithAParenthesis(s); }
    NoBlankNoOperator(s);
  }

  // ----- What is recognised

  lemma {:induction false} SkipShifts(p: string, b: string, i: nat)
    requires i <= |b|
    ensures SkipSpaces(p + b, |p| + i) == |p| + SkipSpaces(b, i)
    decreases |b| - i
  {
    if i < |b| {
      assert (p + b)[|p| + i] == b[i];
      SkipShifts(p, b, i + 1);
    }
  }

  lemma OperatorShifts(p: string, b: string, i: nat)
    requires i <= |b|
    ensures OperatorAt(p + b, |p| + i) == OperatorAt(b, i)
  {
    forall word: string ensures StartsWith(p + b, |p| + i, word) <==> StartsWith(b, i, word) {
      if i + |word| <= |b| { assert (p + b)[|p| + i..|p| + i + |word|] == b[i..i + |word|]; }
    }
  }

  lemma SeparatorShifts(p: string, b: string, i: nat)
    requires i < |b|
    ensures SeparatorEnd(p + b, |p| + i)
            == match SeparatorEnd(b, i) case None => None case Some(e) => Some(|p| + e)
  {
    hide OperatorAt, SkipSpaces, IsSpace;
    var s := p + b;
    assert s[|p| + i] == b[i];
    SkipShifts(p, b, i);
    var j := SkipSpaces(b, i);
    OperatorShifts(p, b, j);
    var k := OperatorAt(b, j);
    if k > 0 && j + k < |b| {
      assert s[|p| + j + k] == b[j + k];
      SkipShifts(p, b, j + k);
    }
  }

  lemma {:induction false} SplitShifts(p: string, b: string, start: nat, i: nat)
    requires start <= i <= |b|
    ensures SplitFrom(p + b, |p| + start, |p| + i) == SplitFrom(b, start, i)
    decreases |b| - i
  {
    hide SeparatorEnd;
    var s := p + b;
    assert s[|p| + start..|p| + i] == b[start..i];
    if i == |b| {
      assert s[|p| + start..] == b[start..];
    } else {
      SeparatorShifts(p, b, i);
      match SeparatorEnd(b, i)
      case Some(e) => SplitShifts(p, b, e, e);
      case None => SplitShifts(p, b, start, i + 1);
    }
  }

  lemma {:induction false} SplitSkips(s: string, start: nat, i: nat, j: nat)
    requires start <= i <= j <= |s| && forall k | i <= k < j :: !IsSpace(s[k])
    ensures SplitFrom(s, start, i) == SplitFrom(s, start, j)
    decreases j - i
  {
    hide IsSpace;
    if i < j { SplitSkips(s, start, i + 1, j); }
  }

  /** An operator between blanks ends a token without blanks, and the rest is split by itself. */
  lemma SplitAtOperator(a: string, op: string, b: string)
    requires op in {"AND", "OR", "WITH"} && b != "" && !IsSpace(b[0])
    requires forall k | 0 <= k < |a| :: !IsSpace(a[k])
    ensures SplitFrom(a + " " + op + " " + b, 0, 0) == [a] + SplitFrom(b, 0, 0)
  {
    hide SplitFrom, SeparatorEnd, IsSpace;
    var p := a + " " + op + " ";
    var s := p + b;
    assert s == a + " " + op + " " + b;
    assert s[..|a|] == a;
    forall k | 0 <= k < |a| ensures !IsSpace(s[k]) { assert s[k] == s[..|a|][k]; }
    SplitSkips(s, 0, 0, |a|);
    SeparatorThere(a, op, b);
    SplitHere(s, 0, |a|, |p|);
    SplitShifts(p, b, 0, 0);
  }

  lemma SplitHere(s: string, start: nat, i: nat, e: nat)
    requires start <= i < |s| && SeparatorEnd(s, i) == Some(e)
    ensures e <= |s| && SplitFrom(s, start, i) == [s[start..i]] + SplitFrom(s, e, e)
  {
    hide SeparatorEnd;
  }

  lemma SeparatorThere(a: string, op: string, b: string)
    requires op in {"AND", "OR", "WITH"} && b != "" && !IsSpace(b[0])
    ensures var p := a + " " + op + " "; SeparatorEnd(p + b, |a|) == Some(|p|)
  {
    var p, n := a + " " + op + " ", |a|;
    var s := p + b;
    assert s[n] == ' ' && s[n + 1 + |op|] == ' ' && s[n + 2 + |op|] == b[0];
    assert s[n + 1..n + 1 + |op|] == op;
    assert s[n + 1] == op[0] && !IsSpace(s[n + 1]);
    assert SkipSpaces(s, n) == n + 1;
    assert OperatorAt(s, n + 1) == |op| by {
      if op != "AND" { assert s[n + 1..n + 1 + |op|][0] == op[0]; }
    }
    assert SkipSpaces(s, n + 1 + |op|) == n + 2 + |op|;
  }

  predicate AllRecognised(expr: string) {
    forall t | t in SplitFrom(expr, 0, 0) :: Recognised(t)
  }

  /** An expression built with an operator is recognised exactly when the token before it and all
      tokens behind it are. */
  lemma OperatorIsRecognised(a: string, op: string, b: string)
    requires op in {"AND", "OR", "WITH"} && b != "" && !IsSpace(b[0])
    requires forall k | 0 <= k < |a| :: !IsSpace(a[k])
    ensures IsValidExpression(a + " " + op + " " + b) <==> Recognised(a) && AllRecognised(b)
  {
    hide Recognised, SplitFrom, IsSpace;
    var s, rest := a + " " + op + " " + b, SplitFrom(b, 0, 0);
    SplitAtOperator(a, op, b);
    assert s[|a|] == ' ';
    SpecialHasNoBlank(s);
    hide *;
    ValidMeans(s);
    TokensRecognised(s, [a] + rest);
    AllMeans(a, b);
  }

  lemma ValidMeans(s: string)
    requires s !in SPECIAL
    ensures IsValidExpression(s) <==> AllRecognised(s)
  {
    hide Recognised, SplitFrom;
    var tokens := SplitFrom(s, 0, 0);
    forall t | t in tokens ensures exists k :: 0 <= k < |tokens| && tokens[k] == t { }
  }

  lemma TokensRecognised(s: string, tokens: seq<string>)
    requires SplitFrom(s, 0, 0) == tokens
    ensures AllRecognised(s) <==> forall t | t in tokens :: Recognised(t)
  {
  }

  lemma AllMeans(a: string, b: string)
    ensures (forall t | t in [a] + SplitFrom(b, 0, 0) :: Recognised(t)) <==> Recognised(a) && AllRecognised(b)
  {
    hide Recognised, SplitFrom;
    assert a in [a] + SplitFrom(b, 0, 0);
  }

  lemma SpecialHasNoBlank(s: string)
    ensures ' ' in s ==> s !in SPECIAL
  {
  }

  /** A text without blanks is recognised exactly when it is one of the two special values or a
      listed id, padding aside. */
  lemma WordIsRecognised(id: string)
    requires forall k | 0 <= k < |id| :: !IsSpace(id[k])
    ensures AllRecognised(id) <==> Recognised(id)
    ensures IsValidExpression(id) <==> id == "NOASSERTION" || id == "NONE" || Recognised(id)
  {
    hide Recognised, IsSpace;
    NoSeparatorIn(id, 0, 0);
    assert id[0..] == id;
    hide SplitFrom;
    assert id in [id];
  }
}
