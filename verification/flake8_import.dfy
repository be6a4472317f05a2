/**
 * The flake8 `ImportChecker` plugin: it walks the direct children of a
 * module's syntax tree and reports one diagnostic per plain `import`
 * statement (X100) and one per `from ... import` statement (X200).
 */
module Flake8Import {
  import opened Wrappers

  // ---------------------------------------------------------------------
  // Flake8Error
  // ---------------------------------------------------------------------

  /** An error the checker builds: a short code and a human-readable message. */
  datatype Flake8Error = Flake8Error(code: string, message: string)

  /** The `error_message` property: the code, one space, then the message. */
  function ErrorMessage(e: Flake8Error): (r: string)
    ensures |r| == |e.code| + 1 + |e.message|
    ensures r[..|e.code|] == e.code
    ensures r[|e.code|] == ' '
    ensures r[|e.code| + 1..] == e.message
  {
    e.code + " " + e.message
  }

  /** The position of the first space in `s`, if there is one. */
  function FirstSpace(s: string): (r: Option<nat>)
    ensures r.Some? ==> r.value < |s| && s[r.value] == ' ' && ' ' !in s[..r.value]
    ensures r.None? ==> ' ' !in s
  {
    if |s| == 0 then None
    else if s[0] == ' ' then Some(0)
    else match FirstSpace(s[1..])
      case None => None
      case Some(k) =>
        assert s[..k + 1] == [s[0]] + s[1..][..k];
        Some(k + 1)
  }

  /**
   * How a host reads a diagnostic text back: the code is everything before
   * the first space, the message everything after it.
   */
  function SplitMessage(s: string): (r: Option<(string, string)>)
    ensures r.Some? ==> ' ' !in r.value.0 && s == r.value.0 + " " + r.value.1
    ensures r.None? <==> ' ' !in s
  {
    match FirstSpace(s)
    case None => None
    case Some(k) =>
      assert s == s[..k] + " " + s[k + 1..];
      Some((s[..k], s[k + 1..]))
  }

  /** A code without spaces can be read back from the formatted message, and so can the message. */
  lemma SplitErrorMessage(e: Flake8Error)
    requires ' ' !in e.code
    ensures SplitMessage(ErrorMessage(e)) == Some((e.code, e.message))
  {
    var s := ErrorMessage(e);
    assert s[|e.code|] == ' ';
  }

  /** Two errors with space-free codes format to the same text only if they are equal. */
  lemma ErrorMessageInjective(e1: Flake8Error, e2: Flake8Error)
    requires ' ' !in e1.code && ' ' !in e2.code
    requires ErrorMessage(e1) == ErrorMessage(e2)
    ensures e1 == e2
  {
    SplitErrorMessage(e1);
    SplitErrorMessage(e2);
  }

  // ---------------------------------------------------------------------
  // The syntax tree the host hands to the checker
  // ---------------------------------------------------------------------

  /** An `alias` node: an imported name and its optional `as` rename. */
  datatype Alias = Alias(name: string, asname: Option<string>)

  /**
   * A direct child of the module node. `Other` stands for every other
   * statement kind, and for the module's `type_ignores` entries, which are
   * not statements but produce no output either; `body` holds the statements
   * nested inside it (the body of a `def`, `class`, `if`, `try`, ...).
   */
  datatype Stmt =
    | Import(lineno: nat, colOffset: nat, names: seq<Alias>)
    | ImportFrom(lineno: nat, colOffset: nat, moduleName: Option<string>, names: seq<Alias>)
    | Other(lineno: nat, colOffset: nat, body: seq<Stmt>)

  /** `from ... import` reads its first name, so it must bind at least one. */
  predicate WellFormed(node: Stmt)
  {
    node.ImportFrom? ==> |node.names| > 0
  }

  predicate WellFormedTree(tree: seq<Stmt>)
  {
    forall i :: 0 <= i < |tree| ==> WellFormed(tree[i])
  }

  predicate IsImportNode(node: Stmt)
  {
    node.Import? || node.ImportFrom?
  }

  // ---------------------------------------------------------------------
  // ImportChecker
  // ---------------------------------------------------------------------

  /** The fourth element of every reported tuple: the checker class itself. */
  datatype CheckerType = ImportCheckerClass

  /** One reported tuple: line, column, formatted message, checker. */
  datatype Report = Report(line: nat, col: nat, message: string, checker: CheckerType)

  /** `_process_import`: a plain import always gives X100, whatever it imports. */
  function ProcessImport(node: Stmt): (e: Flake8Error)
    requires node.Import?
    ensures e.code == "X100" && ErrorMessage(e) == "X100 found import"
  {
    Flake8Error("X100", "found import")
  }

  /**
   * `_process_import_from`: reads the module and the first bound name, neither
   * of which affects the result; every from-import, relative ones included,
   * gives X200.
   */
  function ProcessImportFrom(node: Stmt): (e: Flake8Error)
    requires node.ImportFrom? && |node.names| > 0
    ensures e.code == "X200" && ErrorMessage(e) == "X200 found import from"
  {
    var moduleName := node.moduleName;
    var name := node.names[0].name;
    Flake8Error("X200", "found import from")
  }

  /** `_check_node`: dispatch on the statement kind; other statements give no error. */
  function CheckNode(node: Stmt): (r: Option<Flake8Error>)
    requires WellFormed(node)
    ensures r.Some? <==> IsImportNode(node)
    ensures r.Some? ==> (r.value.code == "X100" <==> node.Import?)
    ensures r.Some? ==> (r.value.code == "X200" <==> node.ImportFrom?)
  {
    match node
    case Import(_, _, _) => Some(ProcessImport(node))
    case ImportFrom(_, _, _, _) => Some(ProcessImportFrom(node))
    case Other(_, _, _) => None
  }

  /** What `run` yields for one child: its error, if any, at the child's own position. */
  function Emit(node: Stmt): seq<Report>
    requires WellFormed(node)
  {
    match CheckNode(node)
    case None => []
    case Some(err) => [Report(node.lineno, node.colOffset, ErrorMessage(err), ImportCheckerClass)]
  }

  /** The whole output of `run`, as a filter-map over the children in order. */
  function Reports(tree: seq<Stmt>): seq<Report>
    requires WellFormedTree(tree)
  {
    if tree == [] then []
    else Reports(tree[..|tree| - 1]) + Emit(tree[|tree| - 1])
  }

  /** `run`: visit the children in order and append one tuple per error. */
  method Run(tree: seq<Stmt>) returns (out: seq<Report>)
    requires WellFormedTree(tree)
    ensures out == Reports(tree)
    ensures |out| == ImportCount(tree)
  {
    out := [];
    for i := 0 to |tree|
      invariant out == Reports(tree[..i])
    {
      assert tree[..i + 1][..i] == tree[..i];
      var err := CheckNode(tree[i]);
      if err.Some? {
        out := out + [Report(tree[i].lineno, tree[i].colOffset, ErrorMessage(err.value), ImportCheckerClass)];
      }
    }
    assert tree[..|tree|] == tree;
    ReportsLength(tree);
  }

  // ---------------------------------------------------------------------
  // Reference definitions and properties of the output
  // ---------------------------------------------------------------------

  /** The number of direct children that are import statements, counted from the front. */
  function ImportCount(tree: seq<Stmt>): nat
  {
    if tree == [] then 0
    else (if IsImportNode(tree[0]) then 1 else 0) + ImportCount(tree[1..])
  }

  /** The positions of the import children, in ascending order. */
  function ImportIndices(tree: seq<Stmt>): (idx: seq<nat>)
    ensures forall p :: 0 <= p < |idx| ==> idx[p] < |tree|
    ensures forall p, q :: 0 <= p < q < |idx| ==> idx[p] < idx[q]
    ensures forall i: nat :: i in idx <==> i < |tree| && IsImportNode(tree[i])
  {
    if tree == [] then []
    else
      var pre := tree[..|tree| - 1];
      assert forall i :: 0 <= i < |pre| ==> pre[i] == tree[i];
      ImportIndices(pre) + (if IsImportNode(tree[|tree| - 1]) then [|tree| - 1] else [])
  }

  /** The diagnostic text for an import child. */
  function ExpectedMessage(node: Stmt): string
  {
    if node.Import? then "X100 found import" else "X200 found import from"
  }

  /** The error `_check_node` returns for an import child formats to that child's fixed text. */
  lemma CheckNodeMessage(node: Stmt)
    requires WellFormed(node) && IsImportNode(node)
    ensures CheckNode(node).Some?
    ensures ErrorMessage(CheckNode(node).value) == ExpectedMessage(node)
  {
  }

  /** Adding one child at the end adds that child's output at the end. */
  lemma ReportsSnoc(tree: seq<Stmt>, node: Stmt)
    requires WellFormedTree(tree) && WellFormed(node)
    ensures WellFormedTree(tree + [node])
    ensures Reports(tree + [node]) == Reports(tree) + Emit(node)
    ensures node.Other? ==> Reports(tree + [node]) == Reports(tree)
  {
    var t := tree + [node];
    assert t[..|tree|] == tree;
    assert t[|tree|] == node;
  }

  /** The output of a concatenation is the concatenation of the outputs. */
  lemma {:induction false} ReportsAppend(a: seq<Stmt>, b: seq<Stmt>)
    requires WellFormedTree(a) && WellFormedTree(b)
    ensures WellFormedTree(a + b)
    ensures Reports(a + b) == Reports(a) + Reports(b)
  {
    if b == [] {
      assert a + b == a;
    } else {
      var b', node := b[..|b| - 1], b[|b| - 1];
      assert b == b' + [node];
      assert a + b == (a + b') + [node];
      assert WellFormedTree(b') && WellFormed(node);
      ReportsAppend(a, b');
      ReportsSnoc(a + b', node);
      ReportsSnoc(b', node);
    }
  }

  /** `run` yields exactly one tuple per import child. */
  lemma {:induction false} ReportsLength(tree: seq<Stmt>)
    requires WellFormedTree(tree)
    ensures |Reports(tree)| == ImportCount(tree)
  {
    if tree != [] {
      assert tree == [tree[0]] + tree[1..];
      ReportsAppend([tree[0]], tree[1..]);
      ReportsLength(tree[1..]);
    }
  }

  /**
   * The k-th tuple comes from the k-th import child, in order: it carries that
   * child's line and column, its code and message, and the checker class.
   */
  lemma {:induction false} ReportsAt(tree: seq<Stmt>)
    requires WellFormedTree(tree)
    ensures |Reports(tree)| == |ImportIndices(tree)|
    ensures forall k :: 0 <= k < |Reports(tree)| ==>
      var node := tree[ImportIndices(tree)[k]];
      Reports(tree)[k] == Report(node.lineno, node.colOffset, ExpectedMessage(node), ImportCheckerClass)
  {
    if tree != [] {
      var pre := tree[..|tree| - 1];
      ReportsAt(pre);
      forall i | 0 <= i < |pre| ensures pre[i] == tree[i] { }
    }
  }

  /** A statement that is not an import, wherever it stands, adds nothing, whatever it nests. */
  lemma OtherIgnored(a: seq<Stmt>, line: nat, col: nat, body: seq<Stmt>, b: seq<Stmt>)
    requires WellFormedTree(a) && WellFormedTree(b)
    ensures WellFormedTree(a + [Other(line, col, body)] + b)
    ensures Reports(a + [Other(line, col, body)] + b) == Reports(a + b)
  {
    var o := Other(line, col, body);
    ReportsSnoc(a, o);
    assert Reports(a + [o]) == Reports(a);
    ReportsAppend(a + [o], b);
    ReportsAppend(a, b);
  }

  /** Every message is one of the two fixed diagnostics. */
  lemma MessagesClosed(tree: seq<Stmt>)
    requires WellFormedTree(tree)
    ensures forall r :: r in Reports(tree) ==>
      r.message == "X100 found import" || r.message == "X200 found import from"
  {
    ReportsAt(tree);
    forall r | r in Reports(tree)
      ensures r.message == "X100 found import" || r.message == "X200 found import from"
    {
      var k :| 0 <= k < |Reports(tree)| && Reports(tree)[k] == r;
    }
  }

  /** The X100 text reads back as code X100 and its message. */
  lemma SplitImportMessage()
    ensures SplitMessage("X100 found import") == Some(("X100", "found import"))
  {
    var e := ProcessImport(Import(0, 0, []));
    assert ' ' !in e.code;
    SplitErrorMessage(e);
  }

  /** The X200 text reads back as code X200 and its message. */
  lemma SplitImportFromMessage()
    ensures SplitMessage("X200 found import from") == Some(("X200", "found import from"))
  {
    var e := ProcessImportFrom(ImportFrom(0, 0, None, [Alias("", None)]));
    assert ' ' !in e.code;
    SplitErrorMessage(e);
  }

  /**
   * Reading back the text of the k-th reported tuple gives the code and message
   * that belong to the kind of the k-th import child.
   */
  lemma ReportCodes(tree: seq<Stmt>)
    requires WellFormedTree(tree)
    ensures |Reports(tree)| == |ImportIndices(tree)|
    ensures forall k :: 0 <= k < |Reports(tree)| ==>
      SplitMessage(Reports(tree)[k].message)
        == Some(if tree[ImportIndices(tree)[k]].Import? then ("X100", "found import")
                else ("X200", "found import from"))
  {
    ReportsAt(tree);
    SplitImportMessage();
    SplitImportFromMessage();
  }
}
