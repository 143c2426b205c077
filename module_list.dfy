/**
 * The console rendering of `puppet module list`: one line per module,
 * either flat under each module path or as dependency trees whose roots
 * are the modules fewest others depend on.
 */
module ModuleList {
  import opened Wrappers
  import opened Text

  /** What the renderer reads of an installed module. */
  datatype Module = Module(
    name: string,
    forgeName: Option<string>,
    version: Option<string>,
    unmet: bool,        // `unsatisfied_dependencies` is not empty
    deps: seq<nat>,     // `dependencies_as_modules`, as positions in the graph
    requiredBy: nat)    // `required_by.size`

  /** The modules of the environment; a module is known by its position. */
  type Graph = seq<Module>

  predicate AllIn(g: Graph, xs: seq<nat>) {
    forall i :: 0 <= i < |xs| ==> xs[i] < |g|
  }

  /** Every dependency is a module of the environment. */
  predicate ValidGraph(g: Graph) {
    forall i :: 0 <= i < |g| ==> AllIn(g, g[i].deps)
  }

  // ---------------------------------------------------------------------
  // One module line
  // ---------------------------------------------------------------------

  function VersionText(version: Option<string>): string {
    match version
    case Some(v) => "(" + v + ")"
    case None => "(???)"
  }

  /** `'  ' * indent_level`: two spaces per level. */
  function Indent(level: nat): (r: string)
    ensures |r| == 2 * level
  {
    if level == 0 then "" else "  " + Indent(level - 1)
  }

  /** What `print` shows after the indent: the unmet marker, the forge name (else the name), the version, a newline. */
  function Entry(m: Module): string {
    (if m.unmet then "UNMET DEPENDENCY " else "") + m.forgeName.GetOr(m.name) + " " + VersionText(m.version) + "\n"
  }

  /** `print(mod, indent_level)`. */
  function Print(m: Module, indent: nat): string {
    Indent(indent) + Entry(m)
  }

  /** `line` starts with at least `level` indent steps. */
  predicate Indented(line: string, level: nat) {
    |line| >= 2 * level && forall i :: 0 <= i < 2 * level ==> line[i] == ' '
  }

  /** An indented line is `2 * indent` spaces followed by the unindented line. */
  lemma {:induction false} PrintIndent(m: Module, indent: nat)
    ensures Indented(Print(m, indent), indent)
    ensures Print(m, indent)[2 * indent..] == Print(m, 0)
  {
    IndentSpaces(indent);
    assert Print(m, 0) == Entry(m);
  }

  lemma {:induction false} IndentSpaces(level: nat)
    ensures forall i :: 0 <= i < |Indent(level)| ==> Indent(level)[i] == ' '
  {
    if level > 0 {
      IndentSpaces(level - 1);
      assert forall i :: 2 <= i < |Indent(level)| ==> Indent(level)[i] == Indent(level - 1)[i - 2];
    }
  }

  /** The unmet marker goes right before the module's name, and nowhere else changes. */
  lemma PrintUnmet(m: Module)
    ensures Print(m.(unmet := true), 0) == "UNMET DEPENDENCY " + Print(m.(unmet := false), 0)
  {
    var shown := m.forgeName.GetOr(m.name);
    var version := VersionText(m.version);
    assert "" + shown == shown;
    AppendAssoc("UNMET DEPENDENCY ", shown + " " + version, "\n");
    AppendAssoc("UNMET DEPENDENCY ", shown + " ", version);
    AppendAssoc("UNMET DEPENDENCY ", shown, " ");
    assert Print(m.(unmet := true), 0) == Entry(m.(unmet := true));
    assert Print(m.(unmet := false), 0) == Entry(m.(unmet := false));
  }

  /** The name and version a line shows hold no line break. */
  predicate OneLine(m: Module) {
    Count(m.forgeName.GetOr(m.name), '\n') == 0 && Count(VersionText(m.version), '\n') == 0
  }

  /** A module's line is exactly one line: it ends in its only line break. */
  lemma PrintIsOneLine(m: Module, indent: nat)
    requires OneLine(m)
    ensures Count(Print(m, indent), '\n') == 1
    ensures Print(m, indent)[|Print(m, indent)| - 1] == '\n'
  {
    var unmet := if m.unmet then "UNMET DEPENDENCY " else "";
    var shown := m.forgeName.GetOr(m.name);
    var version := VersionText(m.version);
    IndentSpaces(indent);
    CountAbsent(Indent(indent), '\n');
    CountAbsent(unmet, '\n');
    CountAppend(unmet, shown, '\n');
    CountAppend(unmet + shown, " ", '\n');
    CountAppend(unmet + shown + " ", version, '\n');
    CountAppend(unmet + shown + " " + version, "\n", '\n');
    CountAppend(Indent(indent), Entry(m), '\n');
  }

  // ---------------------------------------------------------------------
  // Dependency trees
  // ---------------------------------------------------------------------

  function Elems(xs: seq<nat>): set<nat> {
    set x | x in xs
  }

  lemma {:induction false} CardBelow(s: set<nat>, n: nat)
    requires forall x :: x in s ==> x < n
    ensures |s| <= n
  {
    if n == 0 {
      assert s == {};
    } else {
      CardBelow(s - {n - 1}, n - 1);
    }
  }

  /**
   * How many modules are neither `m` nor among its ancestors: it falls at
   * each descent, or stays and `m` joins its ancestors.
   */
  function Rank(g: Graph, anc: seq<nat>, m: nat): nat
    requires m < |g| && AllIn(g, anc)
  {
    CardBelow(Elems(anc) + {m}, |g|);
    |g| - |Elems(anc) + {m}|
  }

  /** Descending into a dependency that is not an ancestor lowers the rank, or keeps it and makes the module its own ancestor. */
  lemma RankStep(g: Graph, anc: seq<nat>, m: nat, d: nat)
    requires m < |g| && d < |g| && AllIn(g, anc) && d !in anc
    ensures AllIn(g, anc + [m])
    ensures Rank(g, anc + [m], d) < Rank(g, anc, m) || (d == m && m !in anc && Rank(g, anc + [m], d) == Rank(g, anc, m))
  {
    assert Elems(anc + [m]) + {d} == Elems(anc) + {m} + {d};
    if d != m {
      assert d !in Elems(anc) + {m};
    }
  }

  /**
   * What `tree_print(m, left, anc, output, indent)` appends: the module's
   * line, then each dependency's tree one level deeper, skipping the
   * dependencies that are ancestors.
   */
  function TreeLines(g: Graph, m: nat, anc: seq<nat>, indent: nat): seq<string>
    requires ValidGraph(g) && m < |g| && AllIn(g, anc)
    decreases Rank(g, anc, m), if m in anc then 0 else 1, 1, 0
  {
    [Print(g[m], indent)] + DepsLines(g, m, anc, indent, g[m].deps)
  }

  /** What the loop over the dependencies `ds` of `m` appends. */
  function DepsLines(g: Graph, m: nat, anc: seq<nat>, indent: nat, ds: seq<nat>): seq<string>
    requires ValidGraph(g) && m < |g| && AllIn(g, anc) && AllIn(g, ds)
    decreases Rank(g, anc, m), if m in anc then 0 else 1, 0, |ds| + 1
  {
    if ds == [] then []
    else DepsLines(g, m, anc, indent, ds[..|ds| - 1]) + DepLines(g, m, anc, indent, ds[|ds| - 1])
  }

  /** What one turn of that loop appends: nothing for an ancestor, else the dependency's tree one level deeper. */
  function DepLines(g: Graph, m: nat, anc: seq<nat>, indent: nat, d: nat): seq<string>
    requires ValidGraph(g) && m < |g| && AllIn(g, anc) && d < |g|
    decreases Rank(g, anc, m), if m in anc then 0 else 1, 0, 0
  {
    if d in anc then [] else RankStep(g, anc, m, d); TreeLines(g, d, anc + [m], indent + 1)
  }

  /** The modules `tree_print` deletes from the list left to print: every dependency it meets, descended into or not. */
  function TreeDeleted(g: Graph, m: nat, anc: seq<nat>): set<nat>
    requires ValidGraph(g) && m < |g| && AllIn(g, anc)
    decreases Rank(g, anc, m), if m in anc then 0 else 1, 1, 0
  {
    DepsDeleted(g, m, anc, g[m].deps)
  }

  function DepsDeleted(g: Graph, m: nat, anc: seq<nat>, ds: seq<nat>): set<nat>
    requires ValidGraph(g) && m < |g| && AllIn(g, anc) && AllIn(g, ds)
    decreases Rank(g, anc, m), if m in anc then 0 else 1, 0, |ds| + 1
  {
    if ds == [] then {}
    else DepsDeleted(g, m, anc, ds[..|ds| - 1]) + DepDeleted(g, m, anc, ds[|ds| - 1])
  }

  /** One turn deletes the dependency itself and, unless it is an ancestor, what its tree deletes. */
  function DepDeleted(g: Graph, m: nat, anc: seq<nat>, d: nat): set<nat>
    requires ValidGraph(g) && m < |g| && AllIn(g, anc) && d < |g|
    decreases Rank(g, anc, m), if m in anc then 0 else 1, 0, 0
  {
    {d} + if d in anc then {} else RankStep(g, anc, m, d); TreeDeleted(g, d, anc + [m])
  }

  /** A tree is its root's line, then the trees of the root's dependencies. */
  lemma TreeLinesHead(g: Graph, m: nat, anc: seq<nat>, indent: nat, head: seq<string>)
    requires ValidGraph(g) && m < |g| && AllIn(g, anc)
    ensures head + TreeLines(g, m, anc, indent) == head + [Print(g[m], indent)] + DepsLines(g, m, anc, indent, g[m].deps)
  {
    AppendAssoc(head, [Print(g[m], indent)], DepsLines(g, m, anc, indent, g[m].deps));
  }

  /** One more turn of the loop over the dependencies. */
  lemma DepsStep(g: Graph, m: nat, anc: seq<nat>, indent: nat, ds: seq<nat>, i: nat, head: seq<string>)
    requires ValidGraph(g) && m < |g| && AllIn(g, anc) && AllIn(g, ds) && i < |ds|
    ensures head + DepsLines(g, m, anc, indent, ds[..i + 1])
      == head + DepsLines(g, m, anc, indent, ds[..i]) + DepLines(g, m, anc, indent, ds[i])
    ensures DepsDeleted(g, m, anc, ds[..i + 1]) == DepsDeleted(g, m, anc, ds[..i]) + DepDeleted(g, m, anc, ds[i])
  {
    assert ds[..i + 1][..i] == ds[..i] && ds[..i + 1][i] == ds[i];
    AppendAssoc(head, DepsLines(g, m, anc, indent, ds[..i]), DepLines(g, m, anc, indent, ds[i]));
  }

  /** Every line of `lines` starts with at least `level` indent steps. */
  predicate LinesIndented(lines: seq<string>, level: nat) {
    forall k :: 0 <= k < |lines| ==> Indented(lines[k], level)
  }

  lemma LinesIndentedAppend(a: seq<string>, b: seq<string>, level: nat)
    requires LinesIndented(a, level) && LinesIndented(b, level)
    ensures LinesIndented(a + b, level)
  {
    forall k | 0 <= k < |a + b| ensures Indented((a + b)[k], level) {
      if k < |a| {
        assert (a + b)[k] == a[k];
      } else {
        assert (a + b)[k] == b[k - |a|];
      }
    }
  }

  /**
   * A tree starts with its root's line at `indent`, and every later line
   * (a dependency's tree) is indented at least one level deeper.
   */
  lemma {:induction false} TreeShape(g: Graph, m: nat, anc: seq<nat>, indent: nat)
    requires ValidGraph(g) && m < |g| && AllIn(g, anc)
    ensures TreeLines(g, m, anc, indent)[0] == Print(g[m], indent)
    ensures LinesIndented(TreeLines(g, m, anc, indent)[1..], indent + 1)
    decreases Rank(g, anc, m), if m in anc then 0 else 1, 1, 0
  {
    DepsShape(g, m, anc, indent, g[m].deps);
    assert TreeLines(g, m, anc, indent)[1..] == DepsLines(g, m, anc, indent, g[m].deps);
  }

  lemma {:induction false} DepsShape(g: Graph, m: nat, anc: seq<nat>, indent: nat, ds: seq<nat>)
    requires ValidGraph(g) && m < |g| && AllIn(g, anc) && AllIn(g, ds)
    ensures LinesIndented(DepsLines(g, m, anc, indent, ds), indent + 1)
    decreases Rank(g, anc, m), if m in anc then 0 else 1, 0, |ds| + 1
  {
    if ds != [] {
      DepsShape(g, m, anc, indent, ds[..|ds| - 1]);
      DepShape(g, m, anc, indent, ds[|ds| - 1]);
      LinesIndentedAppend(DepsLines(g, m, anc, indent, ds[..|ds| - 1]), DepLines(g, m, anc, indent, ds[|ds| - 1]), indent + 1);
    }
  }

  lemma {:induction false} DepShape(g: Graph, m: nat, anc: seq<nat>, indent: nat, d: nat)
    requires ValidGraph(g) && m < |g| && AllIn(g, anc) && d < |g|
    ensures LinesIndented(DepLines(g, m, anc, indent, d), indent + 1)
    decreases Rank(g, anc, m), if m in anc then 0 else 1, 0, 0
  {
    if d !in anc {
      RankStep(g, anc, m, d);
      var sub := TreeLines(g, d, anc + [m], indent + 1);
      TreeShape(g, d, anc + [m], indent + 1);
      PrintIndent(g[d], indent + 1);
      forall k | 0 <= k < |sub| ensures Indented(sub[k], indent + 1) {
        if k == 0 {
          assert sub[0] == Print(g[d], indent + 1);
        } else {
          assert sub[k] == sub[1..][k - 1];
        }
      }
    }
  }

  lemma {:induction false} DepsDeletedHas(g: Graph, m: nat, anc: seq<nat>, ds: seq<nat>)
    requires ValidGraph(g) && m < |g| && AllIn(g, anc) && AllIn(g, ds)
    ensures forall d :: d in ds ==> d in DepsDeleted(g, m, anc, ds)
    decreases |ds|
  {
    if ds != [] {
      DepsDeletedHas(g, m, anc, ds[..|ds| - 1]);
      assert ds == ds[..|ds| - 1] + [ds[|ds| - 1]];
    }
  }

  /** Every direct dependency is deleted, whether or not it is descended into. */
  lemma DirectDepsDeleted(g: Graph, m: nat, anc: seq<nat>)
    requires ValidGraph(g) && m < |g| && AllIn(g, anc)
    ensures forall d :: d in g[m].deps ==> d in TreeDeleted(g, m, anc)
  {
    DepsDeletedHas(g, m, anc, g[m].deps);
  }

  /** `Array#delete` for every member of `a`: the elements of `s` outside `a`, in order. */
  function Remove(s: seq<nat>, a: set<nat>): (r: seq<nat>)
    ensures |r| <= |s|
  {
    if s == [] then [] else (if s[0] in a then [] else [s[0]]) + Remove(s[1..], a)
  }

  /** What is left is what was there and is not removed. */
  lemma {:induction false} RemoveElems(s: seq<nat>, a: set<nat>)
    ensures forall x :: x in Remove(s, a) <==> x in s && x !in a
  {
    if s != [] {
      RemoveElems(s[1..], a);
      assert s == [s[0]] + s[1..];
    }
  }

  lemma RemoveIn(g: Graph, s: seq<nat>, a: set<nat>)
    requires AllIn(g, s)
    ensures AllIn(g, Remove(s, a))
  {
    RemoveElems(s, a);
    forall i | 0 <= i < |Remove(s, a)|
      ensures Remove(s, a)[i] < |g|
    {
      assert Remove(s, a)[i] in s;
    }
  }

  lemma {:induction false} RemoveRemove(s: seq<nat>, a: set<nat>, b: set<nat>)
    ensures Remove(Remove(s, a), b) == Remove(s, a + b)
  {
    if s != [] {
      RemoveRemove(s[1..], a, b);
      if s[0] in a {
        assert Remove(s, a) == Remove(s[1..], a);
      } else {
        assert Remove(s, a) == [s[0]] + Remove(s[1..], a);
        assert Remove(s, a)[0] == s[0];
        assert Remove(s, a)[1..] == Remove(s[1..], a);
      }
    }
  }

  lemma {:induction false} RemoveNone(s: seq<nat>)
    ensures Remove(s, {}) == s
  {
    if s != [] {
      RemoveNone(s[1..]);
    }
  }

  /**
   * The roots the loop over `left` prints: it shifts the first module,
   * prints its tree, and goes on with what that tree left.
   */
  function Roots(g: Graph, left: seq<nat>): (r: seq<nat>)
    requires ValidGraph(g) && AllIn(g, left)
    ensures AllIn(g, r)
    decreases |left|
  {
    if left == [] then []
    else
      RemoveIn(g, left[1..], TreeDeleted(g, left[0], []));
      [left[0]] + Roots(g, Remove(left[1..], TreeDeleted(g, left[0], [])))
  }

  /** What the loop over `left` appends: each root's tree, in turn. */
  function ForestLines(g: Graph, left: seq<nat>): seq<string>
    requires ValidGraph(g) && AllIn(g, left)
    decreases |left|
  {
    if left == [] then []
    else
      RemoveIn(g, left[1..], TreeDeleted(g, left[0], []));
      TreeLines(g, left[0], [], 0) + ForestLines(g, Remove(left[1..], TreeDeleted(g, left[0], [])))
  }

  /** Every root is a module of the list. */
  lemma {:induction false} RootsElems(g: Graph, left: seq<nat>)
    requires ValidGraph(g) && AllIn(g, left)
    ensures forall x :: x in Roots(g, left) ==> x in left
    decreases |left|
  {
    if left != [] {
      var rest := Remove(left[1..], TreeDeleted(g, left[0], []));
      RemoveIn(g, left[1..], TreeDeleted(g, left[0], []));
      RemoveElems(left[1..], TreeDeleted(g, left[0], []));
      RootsElems(g, rest);
    }
  }

  /** One more turn of tree mode's loop: the first module's tree, then the forest of what it left. */
  lemma ForestStep(g: Graph, left: seq<nat>, head: seq<string>)
    requires ValidGraph(g) && AllIn(g, left) && left != []
    ensures AllIn(g, Remove(left[1..], TreeDeleted(g, left[0], [])))
    ensures head + ForestLines(g, left)
      == head + TreeLines(g, left[0], [], 0) + ForestLines(g, Remove(left[1..], TreeDeleted(g, left[0], [])))
  {
    RemoveIn(g, left[1..], TreeDeleted(g, left[0], []));
    AppendAssoc(head, TreeLines(g, left[0], [], 0), ForestLines(g, Remove(left[1..], TreeDeleted(g, left[0], []))));
  }

  /** The trees of the roots `rs`, one after another. */
  function Trees(g: Graph, rs: seq<nat>): seq<string>
    requires ValidGraph(g) && AllIn(g, rs)
  {
    if rs == [] then [] else TreeLines(g, rs[0], [], 0) + Trees(g, rs[1..])
  }

  /** Tree mode prints exactly the trees of its roots, in the order the roots are shifted. */
  lemma {:induction false} ForestIsTrees(g: Graph, left: seq<nat>)
    requires ValidGraph(g) && AllIn(g, left)
    ensures ForestLines(g, left) == Trees(g, Roots(g, left))
    decreases |left|
  {
    if left != [] {
      var rest := Remove(left[1..], TreeDeleted(g, left[0], []));
      RemoveIn(g, left[1..], TreeDeleted(g, left[0], []));
      ForestIsTrees(g, rest);
      var r := Roots(g, left);
      assert r[0] == left[0] && r[1..] == Roots(g, rest);
    }
  }

  /** No root is a module an earlier root's tree deleted. */
  lemma {:induction false} RootsNotDeleted(g: Graph, left: seq<nat>)
    requires ValidGraph(g) && AllIn(g, left)
    ensures forall i, j :: 0 <= i < j < |Roots(g, left)| ==> Roots(g, left)[j] !in TreeDeleted(g, Roots(g, left)[i], [])
    decreases |left|
  {
    if left != [] {
      var del := TreeDeleted(g, left[0], []);
      var rest := Remove(left[1..], del);
      RemoveIn(g, left[1..], del);
      RemoveElems(left[1..], del);
      RootsNotDeleted(g, rest);
      RootsElems(g, rest);
      var r := Roots(g, left);
      assert r[1..] == Roots(g, rest);
      forall i, j | 0 <= i < j < |r|
        ensures r[j] !in TreeDeleted(g, r[i], [])
      {
        assert r[j] == Roots(g, rest)[j - 1];
        if i > 0 {
          assert r[i] == Roots(g, rest)[i - 1];
        }
      }
    }
  }

  /** Every module of the list is printed as a root or deleted by a root's tree. */
  lemma {:induction false} RootsCover(g: Graph, left: seq<nat>)
    requires ValidGraph(g) && AllIn(g, left)
    ensures forall x :: x in left ==> x in Roots(g, left) || exists i :: 0 <= i < |Roots(g, left)| && x in TreeDeleted(g, Roots(g, left)[i], [])
    decreases |left|
  {
    if left != [] {
      var del := TreeDeleted(g, left[0], []);
      var rest := Remove(left[1..], del);
      RemoveIn(g, left[1..], del);
      RemoveElems(left[1..], del);
      RootsCover(g, rest);
      var r := Roots(g, left);
      assert r[1..] == Roots(g, rest);
      forall x | x in left
        ensures x in r || exists i :: 0 <= i < |r| && x in TreeDeleted(g, r[i], [])
      {
        if x != left[0] && x !in del {
          assert x in left[1..];
          assert x in rest;
          if x !in Roots(g, rest) {
            var i :| 0 <= i < |Roots(g, rest)| && x in TreeDeleted(g, Roots(g, rest)[i], []);
            assert r[i + 1] == Roots(g, rest)[i];
          }
        } else if x != left[0] {
          assert x in TreeDeleted(g, r[0], []);
        }
      }
    }
  }

  // ---------------------------------------------------------------------
  // Ordering the roots
  // ---------------------------------------------------------------------

  /** `required_by.size` of a module of the graph. */
  function Required(g: Graph, x: nat): nat {
    if x < |g| then g[x].requiredBy else 0
  }

  /** Ascending `required_by.size`. */
  predicate SortedByRequired(g: Graph, s: seq<nat>) {
    forall i, j :: 0 <= i < j < |s| ==> Required(g, s[i]) <= Required(g, s[j])
  }

  function InsertByRequired(g: Graph, x: nat, s: seq<nat>): seq<nat> {
    if s == [] || Required(g, x) <= Required(g, s[0]) then [x] + s
    else [s[0]] + InsertByRequired(g, x, s[1..])
  }

  lemma {:induction false} InsertByRequiredPerm(g: Graph, x: nat, s: seq<nat>)
    ensures multiset(InsertByRequired(g, x, s)) == multiset(s) + multiset{x}
  {
    if s != [] && Required(g, s[0]) < Required(g, x) {
      InsertByRequiredPerm(g, x, s[1..]);
      assert s == [s[0]] + s[1..];
    }
  }

  /** Every module the insertion puts after the head is `x` or one of the rest. */
  lemma InsertByRequiredFrom(g: Graph, x: nat, s: seq<nat>, y: nat)
    requires y in InsertByRequired(g, x, s)
    ensures y == x || y in s
  {
    InsertByRequiredPerm(g, x, s);
    assert y in multiset(InsertByRequired(g, x, s));
  }

  lemma {:induction false} InsertByRequiredSorted(g: Graph, x: nat, s: seq<nat>)
    requires SortedByRequired(g, s)
    ensures SortedByRequired(g, InsertByRequired(g, x, s))
  {
    var r := InsertByRequired(g, x, s);
    if s == [] {
    } else if Required(g, x) <= Required(g, s[0]) {
      forall i, j | 0 <= i < j < |r| ensures Required(g, r[i]) <= Required(g, r[j]) {
        assert r[j] == s[j - 1];
        if i > 0 {
          assert r[i] == s[i - 1];
        }
      }
    } else {
      var t := InsertByRequired(g, x, s[1..]);
      assert SortedByRequired(g, t) by {
        InsertByRequiredSorted(g, x, s[1..]);
      }
      assert r == [s[0]] + t;
      forall i, j | 0 <= i < j < |r| ensures Required(g, r[i]) <= Required(g, r[j]) {
        assert r[j] == t[j - 1];
        if i == 0 {
          InsertByRequiredFrom(g, x, s[1..], t[j - 1]);
          if t[j - 1] != x {
            var k :| 0 <= k < |s[1..]| && s[1..][k] == t[j - 1];
            assert s[k + 1] == t[j - 1];
          }
        } else {
          assert r[i] == t[i - 1];
        }
      }
    }
  }

  /** `sort_by { |m| m.required_by.size }`, by insertion. */
  function SortByRequired(g: Graph, s: seq<nat>): seq<nat> {
    if s == [] then [] else InsertByRequired(g, s[0], SortByRequired(g, s[1..]))
  }

  lemma {:induction false} SortByRequiredPerm(g: Graph, s: seq<nat>)
    ensures multiset(SortByRequired(g, s)) == multiset(s)
  {
    if s != [] {
      var t := SortByRequired(g, s[1..]);
      SortByRequiredPerm(g, s[1..]);
      InsertByRequiredPerm(g, s[0], t);
      assert s == [s[0]] + s[1..];
    }
  }

  lemma {:induction false} SortByRequiredOrdered(g: Graph, s: seq<nat>)
    ensures SortedByRequired(g, SortByRequired(g, s))
  {
    if s != [] {
      var t := SortByRequired(g, s[1..]);
      SortByRequiredOrdered(g, s[1..]);
      InsertByRequiredSorted(g, s[0], t);
    }
  }

  /** The sort is a permutation in ascending order of `required_by.size`. */
  lemma SortByRequiredSorted(g: Graph, s: seq<nat>)
    ensures multiset(SortByRequired(g, s)) == multiset(s)
    ensures SortedByRequired(g, SortByRequired(g, s))
  {
    SortByRequiredPerm(g, s);
    SortByRequiredOrdered(g, s);
  }

  /** Sorting keeps the modules those of the graph. */
  lemma SortByRequiredIn(g: Graph, s: seq<nat>)
    requires AllIn(g, s)
    ensures AllIn(g, SortByRequired(g, s))
  {
    SortByRequiredSorted(g, s);
    var r := SortByRequired(g, s);
    forall i | 0 <= i < |r| ensures r[i] < |g| {
      assert r[i] in multiset(r);
      assert r[i] in multiset(s);
      var k :| 0 <= k < |s| && s[k] == r[i];
    }
  }

  lemma RemoveFrom(s: seq<nat>, a: set<nat>, y: nat)
    requires y in Remove(s, a)
    ensures y in s && y !in a
  {
    RemoveElems(s, a);
  }

  /** Deleting modules keeps the order. */
  lemma {:induction false} RemoveKeepsSorted(g: Graph, s: seq<nat>, a: set<nat>)
    requires SortedByRequired(g, s)
    ensures SortedByRequired(g, Remove(s, a))
  {
    if s != [] {
      var t := Remove(s[1..], a);
      assert SortedByRequired(g, t) by {
        assert SortedByRequired(g, s[1..]) by {
          forall i, j | 0 <= i < j < |s[1..]| ensures Required(g, s[1..][i]) <= Required(g, s[1..][j]) {
            assert s[1..][i] == s[i + 1] && s[1..][j] == s[j + 1];
          }
        }
        RemoveKeepsSorted(g, s[1..], a);
      }
      var r := Remove(s, a);
      if s[0] in a {
        assert r == t;
      } else {
        assert r == [s[0]] + t;
        forall i, j | 0 <= i < j < |r| ensures Required(g, r[i]) <= Required(g, r[j]) {
          assert r[j] == t[j - 1];
          if i == 0 {
            RemoveFrom(s[1..], a, t[j - 1]);
            var k :| 0 <= k < |s[1..]| && s[1..][k] == t[j - 1];
            assert s[k + 1] == t[j - 1];
          } else {
            assert r[i] == t[i - 1];
          }
        }
      }
    }
  }

  /** Roots come out in ascending `required_by.size` when the list starts sorted. */
  lemma {:induction false} RootsAscend(g: Graph, left: seq<nat>)
    requires ValidGraph(g) && AllIn(g, left) && SortedByRequired(g, left)
    ensures SortedByRequired(g, Roots(g, left))
    decreases |left|
  {
    if left != [] {
      var del := TreeDeleted(g, left[0], []);
      var rest := Remove(left[1..], del);
      RemoveIn(g, left[1..], del);
      RemoveKeepsSorted(g, left[1..], del);
      RemoveElems(left[1..], del);
      RootsAscend(g, rest);
      RootsElems(g, rest);
      var r := Roots(g, left);
      assert r[1..] == Roots(g, rest);
      forall i, j | 0 <= i < j < |r|
        ensures Required(g, r[i]) <= Required(g, r[j])
      {
        if i == 0 {
          assert r[j] in Roots(g, rest);
          assert r[j] in left[1..];
          var k :| 0 <= k < |left[1..]| && left[1..][k] == r[j];
          assert left[k + 1] == r[j];
        } else {
          assert r[i] == Roots(g, rest)[i - 1] && r[j] == Roots(g, rest)[j - 1];
        }
      }
    }
  }

  // ---------------------------------------------------------------------
  // Flat listing and the whole rendering
  // ---------------------------------------------------------------------

  /** Each module's line, unindented, in the given order. */
  function FlatLines(g: Graph, ms: seq<nat>): seq<string>
    requires AllIn(g, ms)
  {
    seq(|ms|, i requires 0 <= i < |ms| => Print(g[ms[i]], 0))
  }

  /** One more turn of flat mode's loop. */
  lemma FlatStep(g: Graph, ms: seq<nat>, i: nat, head: seq<string>)
    requires AllIn(g, ms) && i < |ms|
    ensures head + FlatLines(g, ms[..i + 1]) == head + FlatLines(g, ms[..i]) + [Print(g[ms[i]], 0)]
  {
    assert FlatLines(g, ms[..i + 1]) == FlatLines(g, ms[..i]) + [Print(g[ms[i]], 0)];
    AppendAssoc(head, FlatLines(g, ms[..i]), [Print(g[ms[i]], 0)]);
  }

  /** The flat listing has exactly one line break per module, and ends in one. */
  lemma FlatLineCount(g: Graph, ms: seq<nat>)
    requires AllIn(g, ms)
    requires forall i :: 0 <= i < |g| ==> OneLine(g[i])
    ensures Count(Concat(FlatLines(g, ms)), '\n') == |ms|
  {
    var lines := FlatLines(g, ms);
    forall k | 0 <= k < |lines| ensures Count(lines[k], '\n') == 1 {
      PrintIsOneLine(g[ms[k]], 0);
    }
    ConcatCount(lines, '\n');
  }

  /** In flat mode a path's header line is followed by exactly one unindented line per module, in order. */
  lemma FlatSection(g: Graph, path: string, ms: seq<nat>)
    requires ValidGraph(g) && AllIn(g, ms)
    ensures var sec := PathSection(g, path, ms, false);
      |sec| == |ms| + 1 && sec[0] == path + "\n"
      && forall i :: 0 <= i < |ms| ==> sec[i + 1] == Print(g[ms[i]], 0)
  {
    var sec := PathSection(g, path, ms, false);
    var flat := FlatLines(g, ms);
    assert PathLines(g, ms, false) == flat;
    assert sec == [path + "\n"] + flat;
    forall i | 0 <= i < |ms| ensures sec[i + 1] == Print(g[ms[i]], 0) {
      assert sec[i + 1] == flat[i];
    }
  }

  /** Some module of the environment has an unsatisfied dependency. */
  predicate HasUnmet(g: Graph) {
    exists i :: 0 <= i < |g| && g[i].unmet
  }

  /** The modules under one path: a flat listing, or trees whose roots come in ascending `required_by.size`. */
  function PathLines(g: Graph, modules: seq<nat>, tree: bool): seq<string>
    requires ValidGraph(g) && AllIn(g, modules)
  {
    if tree then SortByRequiredIn(g, modules); ForestLines(g, SortByRequired(g, modules)) else FlatLines(g, modules)
  }

  predicate PathsIn(g: Graph, byPath: seq<(string, seq<nat>)>) {
    forall k :: 0 <= k < |byPath| ==> AllIn(g, byPath[k].1)
  }

  /** One path's header line followed by its modules. */
  function PathSection(g: Graph, path: string, modules: seq<nat>, tree: bool): seq<string>
    requires ValidGraph(g) && AllIn(g, modules)
  {
    [path + "\n"] + PathLines(g, modules, tree)
  }

  /** Each path's section, in order. */
  function PathsLines(g: Graph, byPath: seq<(string, seq<nat>)>, tree: bool): seq<string>
    requires ValidGraph(g) && PathsIn(g, byPath)
  {
    if byPath == [] then []
    else
      var last := byPath[|byPath| - 1];
      PathsLines(g, byPath[..|byPath| - 1], tree) + PathSection(g, last.0, last.1, tree)
  }

  /** What the console rendering appends: a blank line first when some dependency is unmet, then every path. */
  function ConsoleLines(g: Graph, byPath: seq<(string, seq<nat>)>, tree: bool): seq<string>
    requires ValidGraph(g) && PathsIn(g, byPath)
  {
    (if HasUnmet(g) then ["\n"] else []) + PathsLines(g, byPath, tree)
  }

  /** Appending one more path's section to what precedes the paths. */
  lemma PathsLinesStep(g: Graph, byPath: seq<(string, seq<nat>)>, k: nat, tree: bool, head: seq<string>)
    requires ValidGraph(g) && PathsIn(g, byPath) && k < |byPath|
    ensures head + PathsLines(g, byPath[..k + 1], tree)
      == head + PathsLines(g, byPath[..k], tree) + PathSection(g, byPath[k].0, byPath[k].1, tree)
  {
    assert byPath[..k + 1][..k] == byPath[..k] && byPath[..k + 1][k] == byPath[k];
    AppendAssoc(head, PathsLines(g, byPath[..k], tree), PathSection(g, byPath[k].0, byPath[k].1, tree));
  }

  /** The string the console rendering returns. */
  function Rendered(g: Graph, byPath: seq<(string, seq<nat>)>, tree: bool): string
    requires ValidGraph(g) && PathsIn(g, byPath)
  {
    Concat(ConsoleLines(g, byPath, tree))
  }

  lemma {:induction false} PathsLinesStart(g: Graph, byPath: seq<(string, seq<nat>)>, tree: bool)
    requires ValidGraph(g) && PathsIn(g, byPath) && byPath != []
    ensures |PathsLines(g, byPath, tree)| > 0 && PathsLines(g, byPath, tree)[0] == byPath[0].0 + "\n"
  {
    if |byPath| > 1 {
      assert byPath[..|byPath| - 1][0] == byPath[0];
      PathsLinesStart(g, byPath[..|byPath| - 1], tree);
    }
  }

  /**
   * The output starts with one blank line exactly when some module has an
   * unsatisfied dependency, provided the first path is a non-empty name.
   */
  lemma LeadingBlankLine(g: Graph, byPath: seq<(string, seq<nat>)>, tree: bool)
    requires ValidGraph(g) && PathsIn(g, byPath)
    requires byPath != [] && byPath[0].0 != [] && byPath[0].0[0] != '\n'
    ensures var out := Rendered(g, byPath, tree); |out| > 1 && (out[0] == '\n' <==> HasUnmet(g))
    ensures var out := Rendered(g, byPath, tree); HasUnmet(g) ==> out[1] == byPath[0].0[0]
  {
    var paths := PathsLines(g, byPath, tree);
    PathsLinesStart(g, byPath, tree);
    var first := Concat(paths);
    assert first == paths[0] + Concat(paths[1..]);
    assert first[0] == byPath[0].0[0] && |first| > 1;
    if HasUnmet(g) {
      ConcatAppend(["\n"], paths);
      assert Concat(["\n"]) == "\n" + Concat([]);
    } else {
      assert ConsoleLines(g, byPath, tree) == paths;
    }
  }

  /** With no module path at all, the output is the blank line alone, or nothing. */
  lemma NoPathsRendered(g: Graph, tree: bool)
    requires ValidGraph(g)
    ensures Rendered(g, [], tree) == if HasUnmet(g) then "\n" else ""
  {
    assert PathsLines(g, [], tree) == [];
    if HasUnmet(g) {
      assert ConsoleLines(g, [], tree) == ["\n"];
      assert Concat(["\n"]) == "\n" + Concat([]);
    } else {
      assert ConsoleLines(g, [], tree) == [];
    }
  }

  /** The scan over the environment's modules that sets `dependency_errors`. */
  method DependencyErrors(g: Graph) returns (errors: bool)
    ensures errors <==> HasUnmet(g)
  {
    errors := false;
    var i := 0;
    while i < |g|
      invariant 0 <= i <= |g|
      invariant errors <==> exists j :: 0 <= j < i && g[j].unmet
    {
      if g[i].unmet {
        errors := true;
      }
      i := i + 1;
    }
  }

  /** The rendering state: the lines appended to the output so far, and the modules left to print under the current path. */
  class Renderer {
    var output: seq<string>
    var left: seq<nat>

    constructor ()
      ensures output == [] && left == []
    {
      output := [];
      left := [];
    }

    /** `tree_print`: appends the tree of `m` and deletes every dependency it meets from `left`. */
    method TreePrint(g: Graph, m: nat, anc: seq<nat>, indent: nat)
      requires ValidGraph(g) && m < |g| && AllIn(g, anc)
      modifies this
      ensures output == old(output) + TreeLines(g, m, anc, indent)
      ensures left == Remove(old(left), TreeDeleted(g, m, anc))
      decreases Rank(g, anc, m), if m in anc then 0 else 1, 1, 0
    {
      TreeLinesHead(g, m, anc, indent, old(output));
      output := output + [Print(g[m], indent)];
      ghost var start := output;
      var deps := g[m].deps;
      RemoveNone(left);
      var i := 0;
      while i < |deps|
        invariant 0 <= i <= |deps|
        invariant output == start + DepsLines(g, m, anc, indent, deps[..i])
        invariant left == Remove(old(left), DepsDeleted(g, m, anc, deps[..i]))
      {
        DepsStep(g, m, anc, indent, deps, i, start);
        RemoveRemove(old(left), DepsDeleted(g, m, anc, deps[..i]), DepDeleted(g, m, anc, deps[i]));
        VisitDep(g, m, anc, indent, deps[i]);
        i := i + 1;
      }
      assert deps[..|deps|] == deps;
    }

    /** One turn of `tree_print`'s loop: delete `d` from `left`, then print its tree unless it is an ancestor. */
    method VisitDep(g: Graph, m: nat, anc: seq<nat>, indent: nat, d: nat)
      requires ValidGraph(g) && m < |g| && AllIn(g, anc) && d < |g|
      modifies this
      ensures output == old(output) + DepLines(g, m, anc, indent, d)
      ensures left == Remove(old(left), DepDeleted(g, m, anc, d))
      decreases Rank(g, anc, m), if m in anc then 0 else 1, 0, 0
    {
      left := Remove(left, {d});
      if d in anc {
        assert output + [] == output;
        assert {d} + {} == {d};
      } else {
        RankStep(g, anc, m, d);
        TreePrint(g, d, anc + [m], indent + 1);
        RemoveRemove(old(left), {d}, TreeDeleted(g, d, anc + [m]));
      }
    }

    /** The loop of tree mode: sort, then shift a root and print its tree until no module is left. */
    method PrintTree(g: Graph, modules: seq<nat>)
      requires ValidGraph(g) && AllIn(g, modules)
      modifies this
      ensures output == old(output) + PathLines(g, modules, true)
      ensures left == []
    {
      SortByRequiredIn(g, modules);
      left := SortByRequired(g, modules);
      while left != []
        invariant AllIn(g, left)
        invariant old(output) + ForestLines(g, SortByRequired(g, modules)) == output + ForestLines(g, left)
        decreases |left|
      {
        ForestStep(g, left, output);
        var m := left[0];
        left := left[1..];
        TreePrint(g, m, [], 0);
      }
      assert output + [] == output;
    }

    /** Flat mode: each module's line in the given order. */
    method PrintFlat(g: Graph, modules: seq<nat>)
      requires AllIn(g, modules)
      modifies this
      ensures output == old(output) + FlatLines(g, modules)
      ensures left == old(left)
    {
      var i := 0;
      while i < |modules|
        invariant 0 <= i <= |modules|
        invariant output == old(output) + FlatLines(g, modules[..i])
        invariant left == old(left)
      {
        FlatStep(g, modules, i, old(output));
        output := output + [Print(g[modules[i]], 0)];
        i := i + 1;
      }
      assert modules[..|modules|] == modules;
    }

    /** The console rendering of the modules by path; returns the text of the lines appended. */
    method RenderConsole(g: Graph, byPath: seq<(string, seq<nat>)>, tree: bool) returns (text: string)
      requires ValidGraph(g) && PathsIn(g, byPath)
      modifies this
      ensures output == ConsoleLines(g, byPath, tree)
      ensures text == Rendered(g, byPath, tree)
    {
      output := [];
      var errors := DependencyErrors(g);
      if errors {
        output := output + ["\n"];
      }
      ghost var head := output;
      var k := 0;
      while k < |byPath|
        invariant 0 <= k <= |byPath|
        invariant output == head + PathsLines(g, byPath[..k], tree)
      {
        PathsLinesStep(g, byPath, k, tree, head);
        PrintPath(g, byPath[k].0, byPath[k].1, tree);
        k := k + 1;
      }
      assert byPath[..|byPath|] == byPath;
      text := Concat(output);
    }

    /** One turn of the loop over the paths: the path's line, then its modules. */
    method PrintPath(g: Graph, path: string, modules: seq<nat>, tree: bool)
      requires ValidGraph(g) && AllIn(g, modules)
      modifies this
      ensures output == old(output) + PathSection(g, path, modules, tree)
    {
      output := output + [path + "\n"];
      if tree {
        PrintTree(g, modules);
      } else {
        PrintFlat(g, modules);
      }
      AppendAssoc(old(output), [path + "\n"], PathLines(g, modules, tree));
    }
  }
}
