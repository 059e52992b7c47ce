/** The ecpg lint wrapper of pglint: a SQL string is normalised, cut into statement
    fragments, each fragment is handed to the `ecpg` preprocessor, and the failing
    runs are turned into diagnostics. The `ecpg` process itself and the shell probe
    that looks for it are parameters (`validator`, `defaultChecker`). */
module EcpgWrapper {
  import opened Results
  import opened GoStrings

  /** The command the dependency checker is asked about. */
  const DepEcpg: string := "ecpg --help"
  const MissingDependency: string :=
    "ecpg is required to use this library, please see README.config.md for ECPG library requirements"
  const EmptyStatement: string := "statement string is empty"
  /** What every `?` becomes when question marks are allowed (quotes included). */
  const Placeholder: string := "\"placeholder\""
  /** The keyword every fragment must start with. */
  const ExecSql: string := "EXEC SQL"
  /** The location marker ecpg puts in front of a diagnostic about its single input line. */
  const LocationMarker: string := "stdin:1:"

  // ---------------------------------------------------------------------------
  // Configuration and construction
  // ---------------------------------------------------------------------------

  /** `None` in `dependencyChecker` is Go's nil func field. */
  datatype Config = Config(
    addSemiColon: bool,
    trimWhiteSpace: bool,
    questionMarks: bool,
    dependencyChecker: Option<string -> bool>)

  predicate SameFlags(a: Config, b: Config) {
    && a.addSemiColon == b.addSemiColon
    && a.trimWhiteSpace == b.trimWhiteSpace
    && a.questionMarks == b.questionMarks
  }

  /** A linter holding its configuration; it keeps no other state between checks. */
  datatype Ecpg = Ecpg(config: Config)

  /** The configuration after a nil checker has been replaced by the default probe. */
  function WithDefaultChecker(c: Config, defaultChecker: string -> bool): (r: Config)
    ensures SameFlags(r, c)
    ensures r.dependencyChecker.Some?
    ensures c.dependencyChecker.Some? ==> r == c
    ensures c.dependencyChecker.None? ==> r.dependencyChecker == Some(defaultChecker)
  {
    if c.dependencyChecker.None? then c.(dependencyChecker := Some(defaultChecker)) else c
  }

  /** `NewECPG`: asks the (possibly defaulted) checker about `ecpg --help` and builds
      a linter exactly when the answer is yes. */
  function NewEcpg(c: Config, defaultChecker: string -> bool): (r: Result<Ecpg, string>)
    ensures c.dependencyChecker.Some? ==> (r.Success? <==> c.dependencyChecker.value(DepEcpg))
    ensures c.dependencyChecker.None? ==> (r.Success? <==> defaultChecker(DepEcpg))
    ensures r.Failure? ==> r.error == MissingDependency
    ensures r.Success? ==> SameFlags(r.value.config, c) && r.value.config.dependencyChecker.Some?
  {
    var c' := WithDefaultChecker(c, defaultChecker);
    if !c'.dependencyChecker.value(DepEcpg) then Failure(MissingDependency)
    else Success(Ecpg(c'))
  }

  // ---------------------------------------------------------------------------
  // Normalisation
  // ---------------------------------------------------------------------------

  /** Every `?` becomes the quoted placeholder, 12 characters longer. */
  function SubstitutePlaceholders(s: string): (r: string)
    ensures '?' !in r
    ensures |r| == |s| + 12 * Count(s, '?')
    ensures '?' !in s ==> r == s
  {
    ReplaceAllLength(s, '?', Placeholder);
    ReplaceAll(s, '?', Placeholder)
  }

  /** Appends a `;` unless `s` already ends with one. */
  function AddSemiColon(s: string): (r: string)
    ensures HasSuffix(r, ";")
    ensures HasPrefix(r, s)
    ensures |r| == |s| + (if HasSuffix(s, ";") then 0 else 1)
    ensures Count(r, ';') == Count(s, ';') + (if HasSuffix(s, ";") then 0 else 1)
  {
    CountAppend(s, ";", ';');
    if HasSuffix(s, ";") then s else s + ";"
  }

  /** The normalisation steps of `CheckStatement` before the terminator: trim, then
      substitute placeholders, each as enabled. */
  function Cleaned(c: Config, stmt: string): string {
    var t := if c.trimWhiteSpace then TrimSpace(stmt) else stmt;
    if c.questionMarks then SubstitutePlaceholders(t) else t
  }

  /** The normalisation steps of `CheckStatement`, in their fixed order: trim, then
      substitute placeholders, then terminate. */
  function Normalize(c: Config, stmt: string): (r: string)
    ensures c.addSemiColon ==> HasSuffix(r, ";")
    ensures c.questionMarks ==> '?' !in r
    ensures !c.addSemiColon && !c.trimWhiteSpace && !c.questionMarks ==> r == stmt
  {
    var q := Cleaned(c, stmt);
    if c.addSemiColon then AddSemiColon(q) else q
  }

  /** Normalisation adds at most the one terminating `;`: trimming only removes
      spaces and the placeholder holds no `;`. */
  lemma NormalizeSemicolons(c: Config, stmt: string)
    ensures var r := Normalize(c, stmt);
      Count(stmt, ';') <= Count(r, ';') <= Count(stmt, ';') + (if c.addSemiColon then 1 else 0)
  {
    CleanedKeepsSemicolons(c, stmt);
  }

  /** Trimming and placeholder substitution keep every `;`. */
  lemma CleanedKeepsSemicolons(c: Config, stmt: string)
    ensures Count(Cleaned(c, stmt), ';') == Count(stmt, ';')
  {
    var t := if c.trimWhiteSpace then TrimSpace(stmt) else stmt;
    if c.trimWhiteSpace {
      TrimSpaceKeepsCount(stmt, ';');
    }
    if c.questionMarks {
      assert ';' !in Placeholder;
      ReplaceAllKeepsCount(t, '?', Placeholder, ';');
    }
  }

  // ---------------------------------------------------------------------------
  // Splitting into fragments
  // ---------------------------------------------------------------------------

  /** What ecpg may be given: non-empty, starting with the keyword, on one line. */
  predicate IsFragment(f: string) {
    f != [] && HasPrefix(f, ExecSql) && '\n' !in f
  }

  /** Turns one `SplitAfter` piece into a fragment: prefix the keyword unless it is
      already there, then drop every line feed (carriage returns stay). */
  function ShapeFragment(piece: string): (f: string)
    ensures IsFragment(f)
    ensures HasSuffix(f, ReplaceAll(piece, '\n', []))
    ensures '\n' !in piece && HasPrefix(piece, ExecSql) ==> f == piece
    ensures '\n' !in piece && !HasPrefix(piece, ExecSql) ==> f == ExecSql + " " + piece
    ensures f == (if HasPrefix(piece, ExecSql) then [] else ExecSql + " ") + ReplaceAll(piece, '\n', [])
  {
    var prefixed := if HasPrefix(piece, ExecSql) then piece else ExecSql + " " + piece;
    assert HasPrefix(piece, ExecSql) ==> [] + ReplaceAll(piece, '\n', []) == ReplaceAll(piece, '\n', []);
    var rest := prefixed[|ExecSql|..];
    assert prefixed == ExecSql + rest;
    DropLineFeedsAfter(ExecSql, rest);
    DropLineFeedsAfter(ExecSql + " ", piece);
    ReplaceAll(prefixed, '\n', [])
  }

  /** Dropping line feeds leaves a line-feed-free head in place. */
  lemma DropLineFeedsAfter(head: string, rest: string)
    requires '\n' !in head
    ensures ReplaceAll(head + rest, '\n', []) == head + ReplaceAll(rest, '\n', [])
  {
    ReplaceAllAppend(head, rest, '\n', []);
  }

  /** Number of empty strings in `pieces`. */
  function CountEmpty(pieces: seq<string>): (n: nat)
    ensures n <= |pieces|
    decreases |pieces|
  {
    if pieces == [] then 0 else (if pieces[0] == [] then 1 else 0) + CountEmpty(pieces[1..])
  }

  /** The loop body of `executeECPGCommand` before the ecpg call: empty pieces are
      skipped, every other piece is shaped, order is kept. */
  function ShapePieces(pieces: seq<string>): (fs: seq<string>)
    ensures |fs| + CountEmpty(pieces) == |pieces|
    ensures forall k :: 0 <= k < |fs| ==> IsFragment(fs[k])
    decreases |pieces|
  {
    if pieces == [] then []
    else (if pieces[0] == [] then [] else [ShapeFragment(pieces[0])]) + ShapePieces(pieces[1..])
  }

  lemma {:induction false} ShapePiecesSnoc(pieces: seq<string>, p: string)
    ensures ShapePieces(pieces + [p]) ==
      ShapePieces(pieces) + (if p == [] then [] else [ShapeFragment(p)])
    decreases |pieces|
  {
    if pieces == [] {
      assert pieces + [p] == [p];
    } else {
      assert (pieces + [p])[0] == pieces[0];
      assert (pieces + [p])[1..] == pieces[1..] + [p];
      ShapePiecesSnoc(pieces[1..], p);
    }
  }

  /** Shaping one more piece of a list adds that piece's fragment, if any. */
  lemma ShapePiecesStep(pieces: seq<string>, k: nat)
    requires k < |pieces|
    ensures ShapePieces(pieces[..k + 1]) ==
      ShapePieces(pieces[..k]) + (if pieces[k] == [] then [] else [ShapeFragment(pieces[k])])
  {
    assert pieces[..k + 1] == pieces[..k] + [pieces[k]];
    ShapePiecesSnoc(pieces[..k], pieces[k]);
  }

  /** When only the last piece may be empty, at most that one is. */
  lemma {:induction false} CountEmptyOnlyLast(pieces: seq<string>)
    requires pieces != []
    requires forall k :: 0 <= k < |pieces| - 1 ==> pieces[k] != []
    ensures CountEmpty(pieces) == if pieces[|pieces| - 1] == [] then 1 else 0
    decreases |pieces|
  {
    if |pieces| > 1 {
      CountEmptyOnlyLast(pieces[1..]);
    }
  }

  /** A concatenation ends with the last character of its last piece. */
  lemma ConcatEndsWithLastPiece(pieces: seq<string>)
    requires pieces != [] && pieces[|pieces| - 1] != []
    ensures var s := Concat(pieces); var last := pieces[|pieces| - 1];
      s != [] && s[|s| - 1] == last[|last| - 1]
  {
    var init := pieces[..|pieces| - 1];
    var last := pieces[|pieces| - 1];
    assert pieces == init + [last];
    ConcatSnoc(init, last);
  }

  /** The last `SplitAfter` piece is empty exactly when the text is empty or ends in `;`. */
  lemma SplitAfterLastEmpty(s: string)
    ensures var pieces := SplitAfter(s, ';');
      pieces[|pieces| - 1] == [] <==> (s == [] || HasSuffix(s, ";"))
  {
    var pieces := SplitAfter(s, ';');
    var last := pieces[|pieces| - 1];
    SplitAfterConcat(s, ';');
    SplitAfterLast(s, ';');
    if last != [] {
      ConcatEndsWithLastPiece(pieces);
    } else if |pieces| > 1 {
      SplitAfterPieces(s, ';');
      EndsWithSeparator(pieces);
    }
  }

  /** When the last piece is empty, the text ends with the one before it, whose last
      character is `;`. */
  lemma EndsWithSeparator(pieces: seq<string>)
    requires |pieces| > 1 && pieces[|pieces| - 1] == []
    requires IsSplitAfterPiece(pieces[|pieces| - 2], ';')
    ensures HasSuffix(Concat(pieces), ";")
  {
    var init := pieces[..|pieces| - 1];
    assert pieces == init + [[]];
    ConcatSnoc(init, []);
    var s := Concat(init);
    assert Concat(pieces) == s;
    ConcatEndsWithLastPiece(init);
    assert s[|s| - 1] == ';';
    assert s[|s| - 1..] == [';'];
  }

  /** The fragments of a normalised statement, in the order they are sent to ecpg. */
  function Fragments(stmt: string): (fs: seq<string>)
    ensures forall k :: 0 <= k < |fs| ==> IsFragment(fs[k])
    ensures |fs| == Count(stmt, ';') + (if stmt == [] || HasSuffix(stmt, ";") then 0 else 1)
  {
    ShapedPiecesCount(stmt);
    ShapePieces(SplitAfter(stmt, ';'))
  }

  /** One fragment per `;`, plus one for unterminated trailing text. */
  lemma ShapedPiecesCount(stmt: string)
    ensures |ShapePieces(SplitAfter(stmt, ';'))| ==
      Count(stmt, ';') + (if stmt == [] || HasSuffix(stmt, ";") then 0 else 1)
  {
    var pieces := SplitAfter(stmt, ';');
    SplitAfterCount(stmt, ';');
    SplitAfterPieces(stmt, ';');
    CountEmptyOnlyLast(pieces);
    SplitAfterLastEmpty(stmt);
  }

  // ---------------------------------------------------------------------------
  // Diagnostics
  // ---------------------------------------------------------------------------

  /** What one ecpg run reports: whether it exited with an error, and its combined
      standard output and standard error. */
  datatype Run = Run(failed: bool, output: string)

  /** Index of the first line starting with `p`. */
  function FirstWithPrefix(lines: seq<string>, p: string): (r: Option<nat>)
    ensures r.Some? ==> r.value < |lines| && HasPrefix(lines[r.value], p)
    ensures r.Some? ==> forall j :: 0 <= j < r.value ==> !HasPrefix(lines[j], p)
    ensures r.None? ==> forall j :: 0 <= j < |lines| ==> !HasPrefix(lines[j], p)
    decreases |lines|
  {
    if lines == [] then None
    else if HasPrefix(lines[0], p) then Some(0)
    else match FirstWithPrefix(lines[1..], p)
      case None => None
      case Some(i) => Some(i + 1)
  }

  /** `pullErrorData`: the first output line that starts with the location marker,
      without the marker and trimmed; empty when no line carries the marker. */
  function PullErrorData(out: string): (msg: string)
    ensures '\n' !in msg
    ensures IsTrimmed(msg)
    ensures (forall k :: 0 <= k < |Split(out, '\n')| ==> !HasPrefix(Split(out, '\n')[k], LocationMarker))
      ==> msg == []
  {
    var lines := Split(out, '\n');
    SplitPieces(out, '\n');
    match FirstWithPrefix(lines, LocationMarker)
    case None => []
    case Some(i) =>
      RemoveFirstKeepsOut(lines[i], LocationMarker, '\n');
      TrimSpaceKeepsOut(RemoveFirst(lines[i], LocationMarker), '\n');
      TrimSpace(RemoveFirst(lines[i], LocationMarker))
  }

  /** What a diagnostic looks like: a single trimmed line. */
  predicate IsMessage(m: string) {
    '\n' !in m && IsTrimmed(m)
  }

  /** What one run contributes: the extracted message if it failed, nothing if it passed. */
  function Diagnostic(run: Run): (d: seq<string>)
    ensures |d| <= 1
    ensures d != [] <==> run.failed
    ensures forall j :: 0 <= j < |d| ==> IsMessage(d[j])
  {
    if run.failed then [PullErrorData(run.output)] else []
  }

  /** One diagnostic per failed run, in fragment order; passing runs add nothing. */
  function Diagnostics(fragments: seq<string>, validator: string -> Run): (errs: seq<string>)
    ensures |errs| <= |fragments|
    decreases |fragments|
  {
    if fragments == [] then []
    else
      var run := validator(fragments[0]);
      Diagnostic(run) + Diagnostics(fragments[1..], validator)
  }

  /** No diagnostics exactly when every run passed. */
  lemma {:induction false} DiagnosticsEmptyIff(fragments: seq<string>, validator: string -> Run)
    ensures Diagnostics(fragments, validator) == [] <==>
      forall k :: 0 <= k < |fragments| ==> !validator(fragments[k]).failed
    decreases |fragments|
  {
    if fragments != [] {
      DiagnosticsEmptyIff(fragments[1..], validator);
      assert forall k :: 1 <= k < |fragments| ==> fragments[k] == fragments[1..][k - 1];
    }
  }

  /** Every diagnostic is a single trimmed line. */
  lemma {:induction false} DiagnosticsAreTrimmedLines(fragments: seq<string>, validator: string -> Run)
    ensures forall j :: 0 <= j < |Diagnostics(fragments, validator)| ==>
      IsMessage(Diagnostics(fragments, validator)[j])
    decreases |fragments|
  {
    if fragments != [] {
      DiagnosticsAreTrimmedLines(fragments[1..], validator);
      var run := validator(fragments[0]);
      var head := Diagnostic(run);
      var rest := Diagnostics(fragments[1..], validator);
      assert Diagnostics(fragments, validator) == head + rest;
      forall j | 0 <= j < |head + rest| ensures IsMessage((head + rest)[j]) {
        if j >= |head| {
          assert (head + rest)[j] == rest[j - |head|];
        }
      }
    }
  }

  /** Diagnostics keep fragment order: those of a longer run of fragments are those
      of its first part followed by those of the rest. */
  lemma {:induction false} DiagnosticsAppend(a: seq<string>, b: seq<string>, validator: string -> Run)
    ensures Diagnostics(a + b, validator) == Diagnostics(a, validator) + Diagnostics(b, validator)
    decreases |a|
  {
    if a == [] {
      assert a + b == b;
    } else {
      var run := validator(a[0]);
      var head := Diagnostic(run);
      assert (a + b)[0] == a[0];
      assert (a + b)[1..] == a[1..] + b;
      assert Diagnostics(a + b, validator) == head + Diagnostics(a[1..] + b, validator);
      DiagnosticsAppend(a[1..], b, validator);
    }
  }

  /** One more fragment adds its own diagnostic, if its run failed, at the end: the
      message extracted from that run's output. */
  lemma DiagnosticsSnoc(fragments: seq<string>, f: string, validator: string -> Run)
    ensures Diagnostics(fragments + [f], validator) ==
      Diagnostics(fragments, validator) + Diagnostic(validator(f))
    ensures Diagnostics(fragments + [f], validator) ==
      Diagnostics(fragments, validator) +
      (if validator(f).failed then [PullErrorData(validator(f).output)] else [])
  {
    DiagnosticsAppend(fragments, [f], validator);
    assert [f][1..] == [];
  }

  /** The diagnostic of a failed run sits right after those of the fragments before
      it, and it is the message extracted from that run's output. */
  lemma DiagnosticsAt(fragments: seq<string>, validator: string -> Run, k: nat)
    requires k < |fragments| && validator(fragments[k]).failed
    ensures var j := |Diagnostics(fragments[..k], validator)|;
      j < |Diagnostics(fragments, validator)| &&
      Diagnostics(fragments, validator)[j] == PullErrorData(validator(fragments[k]).output)
  {
    var before, f, rest := fragments[..k], fragments[k], fragments[k + 1..];
    var msg := PullErrorData(validator(f).output);
    SplitAround(fragments, k);
    DiagnosticsAppend(before + [f], rest, validator);
    DiagnosticsSnoc(before, f, validator);
    var a := Diagnostics(before, validator);
    assert Diagnostics(fragments, validator) == (a + [msg]) + Diagnostics(rest, validator);
  }

  /** A sequence is what comes before position `k`, the element there, and the rest. */
  lemma SplitAround<T>(s: seq<T>, k: nat)
    requires k < |s|
    ensures s == (s[..k] + [s[k]]) + s[k + 1..]
  {
  }

  // ---------------------------------------------------------------------------
  // The pipeline
  // ---------------------------------------------------------------------------

  /** `executeECPGCommand`: split after every `;`, shape and send each non-empty piece
      to ecpg, and collect a diagnostic for each failed run. `invoked` lists the
      fragments ecpg was run on, in call order. */
  method ExecuteEcpgCommand(stmt: string, validator: string -> Run)
    returns (errs: seq<string>, invoked: seq<string>)
    ensures invoked == Fragments(stmt)
    ensures errs == Diagnostics(invoked, validator)
  {
    errs := [];
    invoked := [];
    var pieces := SplitAfter(stmt, ';');
    var k := 0;
    assert pieces[..k] == [];
    while k < |pieces|
      invariant 0 <= k <= |pieces|
      invariant invoked == ShapePieces(pieces[..k])
      invariant errs == Diagnostics(invoked, validator)
    {
      ShapePiecesStep(pieces, k);
      errs, invoked := SendPiece(pieces[k], validator, errs, invoked);
      k := k + 1;
    }
    assert pieces[..k] == pieces;
  }

  /** One iteration of `executeECPGCommand`'s loop: an empty piece is skipped;
      otherwise the keyword is prefixed unless the raw piece already starts with it,
      line feeds are dropped, and the resulting fragment is run; a failed run adds
      its diagnostic. */
  method SendPiece(piece: string, validator: string -> Run, errs: seq<string>, invoked: seq<string>)
    returns (errs': seq<string>, invoked': seq<string>)
    requires errs == Diagnostics(invoked, validator)
    ensures invoked' == invoked + (if piece == [] then [] else [ShapeFragment(piece)])
    ensures errs' == Diagnostics(invoked', validator)
  {
    errs', invoked' := errs, invoked;
    if piece != [] {
      var element := piece;
      if !HasPrefix(element, ExecSql) {
        element := ExecSql + " " + element;
      }
      element := ReplaceAll(element, '\n', []);
      assert element == ShapeFragment(piece);
      var run := validator(element);
      DiagnosticsSnoc(invoked, element, validator);
      invoked' := invoked + [element];
      if run.failed {
        errs' := errs + [PullErrorData(run.output)];
      }
    }
  }

  /** `CheckStatement`: the empty string is rejected before anything else (the
      untrimmed text is tested, so an all-space statement is still sent); otherwise
      the normalised statement goes through `ExecuteEcpgCommand`. */
  method CheckStatement(e: Ecpg, stmt: string, validator: string -> Run)
    returns (errs: seq<string>, invoked: seq<string>)
    ensures stmt == [] ==> errs == [EmptyStatement] && invoked == []
    ensures stmt != [] ==> invoked == Fragments(Normalize(e.config, stmt))
    ensures stmt != [] ==> errs == Diagnostics(invoked, validator)
    ensures forall k :: 0 <= k < |invoked| ==> IsFragment(invoked[k])
    ensures stmt != [] ==> Count(stmt, ';') <= |invoked| <= Count(stmt, ';') + 1
    ensures stmt != [] && e.config.addSemiColon ==> |invoked| == Count(Normalize(e.config, stmt), ';')
  {
    if stmt == [] {
      return [EmptyStatement], [];
    }
    var normalized := Normalize(e.config, stmt);
    errs, invoked := ExecuteEcpgCommand(normalized, validator);
    NormalizeSemicolons(e.config, stmt);
  }
}
