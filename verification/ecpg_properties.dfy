/** Properties of the ecpg wrapper that relate several calls: what the diagnostic
    extractor returns for each shape of ecpg output, that normalising twice changes
    nothing, what the splitter makes of particular statements, and what the
    dependency gate depends on. */
module EcpgProperties {
  import opened Results
  import opened GoStrings
  import opened EcpgWrapper

  // ---------------------------------------------------------------------------
  // The diagnostic extractor
  // ---------------------------------------------------------------------------

  /** A line without the marker is passed over: the answer comes from the lines after it. */
  lemma PullErrorDataSkipsUnmarkedLine(line: string, rest: string)
    requires '\n' !in line && !HasPrefix(line, LocationMarker)
    ensures PullErrorData(line + "\n" + rest) == PullErrorData(rest)
  {
    SplitFirst(line, '\n', rest);
    var lines := Split(line + "\n" + rest, '\n');
    assert lines[1..] == Split(rest, '\n');
  }

  /** The first line carrying the marker decides the answer: its text after the
      marker, trimmed. */
  lemma PullErrorDataMarkedLine(line: string, rest: string)
    requires '\n' !in line && HasPrefix(line, LocationMarker)
    ensures PullErrorData(line + "\n" + rest) == TrimSpace(line[|LocationMarker|..])
  {
    SplitFirst(line, '\n', rest);
  }

  /** Output with no line feed is a single line. */
  lemma PullErrorDataSingleLine(line: string)
    requires '\n' !in line
    ensures PullErrorData(line) ==
      if HasPrefix(line, LocationMarker) then TrimSpace(line[|LocationMarker|..]) else []
  {
    SplitNoSeparator(line, '\n');
  }

  /** Round trip: a one-line message that ecpg reports after the marker (and a space)
      is exactly what the extractor gives back, whatever follows it. */
  lemma {:induction false} PullErrorDataRoundTrip(msg: string, rest: string)
    requires '\n' !in msg && IsTrimmed(msg)
    ensures PullErrorData(LocationMarker + " " + msg + "\n" + rest) == msg
    ensures PullErrorData(LocationMarker + " " + msg) == msg
  {
    var line := LocationMarker + " " + msg;
    assert line[..|LocationMarker|] == LocationMarker;
    assert line[|LocationMarker|..] == [' '] + msg + [];
    assert '\n' !in line;
    TrimSpaceUnique([' '], msg, []);
    PullErrorDataMarkedLine(line, rest);
    PullErrorDataSingleLine(line);
  }

  /** The extractor on the first output its unit test uses: an ecpg syntax error. */
  lemma PullErrorDataSyntaxErrorExample()
    ensures PullErrorData("stdin:1: " + "ERROR: syntax error at or near \";\"")
      == "ERROR: syntax error at or near \";\""
  {
    var msg := "ERROR: syntax error at or near \";\"";
    assert "stdin:1: " == LocationMarker + " ";
    SyntaxErrorMessage();
    PullErrorDataRoundTrip(msg, "");
  }

  /** The test's message is one trimmed line. */
  lemma SyntaxErrorMessage()
    ensures '\n' !in "ERROR: syntax error at or near \";\""
    ensures IsTrimmed("ERROR: syntax error at or near \";\"")
  {
  }

  /** The extractor on the other two outputs of its unit test: unrelated text and
      nothing at all give the empty message. */
  lemma PullErrorDataNoMarkerExamples()
    ensures PullErrorData("the brown dog jumps over the red fox") == ""
    ensures PullErrorData("") == ""
  {
    var noise := "the brown dog jumps over the red fox";
    assert noise[0] != LocationMarker[0];
    PullErrorDataSingleLine(noise);
    PullErrorDataSingleLine("");
  }

  /** A failed run whose output carries no marker still yields a diagnostic, with an
      empty message. */
  lemma FailedRunWithoutMarker(f: string, validator: string -> Run)
    requires validator(f).failed
    requires '\n' !in validator(f).output && !HasPrefix(validator(f).output, LocationMarker)
    ensures Diagnostics([f], validator) == [""]
  {
    PullErrorDataSingleLine(validator(f).output);
  }

  // ---------------------------------------------------------------------------
  // Normalisation
  // ---------------------------------------------------------------------------

  /** Placeholder substitution keeps every character other than `?` and those the
      placeholder itself introduces. */
  lemma SubstitutePlaceholdersKeepsCount(s: string, x: char)
    requires x != '?' && x !in Placeholder
    ensures Count(SubstitutePlaceholders(s), x) == Count(s, x)
  {
    ReplaceAllKeepsCount(s, '?', Placeholder, x);
  }

  /** Placeholder substitution works character by character, so it keeps order. */
  lemma SubstitutePlaceholdersAppend(a: string, b: string)
    ensures SubstitutePlaceholders(a + b) == SubstitutePlaceholders(a) + SubstitutePlaceholders(b)
  {
    ReplaceAllAppend(a, b, '?', Placeholder);
  }

  /** A single character other than `?` is kept, and a `?` becomes the placeholder. */
  lemma SubstitutePlaceholdersChar(x: char)
    ensures SubstitutePlaceholders([x]) == if x == '?' then Placeholder else [x]
  {
    assert [x][1..] == [];
  }

  /** Substituting placeholders in already substituted text changes nothing. */
  lemma SubstitutePlaceholdersIdempotent(s: string)
    ensures SubstitutePlaceholders(SubstitutePlaceholders(s)) == SubstitutePlaceholders(s)
  {
    assert '?' !in Placeholder;
    ReplaceAllIdempotent(s, '?', Placeholder);
  }

  /** Replacing with a trimmed, non-empty text keeps a trimmed string trimmed. */
  lemma ReplaceAllKeepsTrimmed(s: string, c: char, rep: string)
    requires IsTrimmed(s) && rep != [] && IsTrimmed(rep)
    ensures IsTrimmed(ReplaceAll(s, c, rep))
  {
    if s != [] {
      var n := |s|;
      assert s == s[..n - 1] + [s[n - 1]];
      ReplaceAllAppend(s[..n - 1], [s[n - 1]], c, rep);
      assert [s[n - 1]][1..] == [];
      assert ReplaceAll([s[n - 1]], c, rep) == Image(s[n - 1], c, rep);
    }
  }

  /** With trimming on, the normalised statement has nothing left to trim. */
  lemma NormalizeTrimmed(c: Config, stmt: string)
    requires c.trimWhiteSpace
    ensures IsTrimmed(Normalize(c, stmt))
  {
    var t := TrimSpace(stmt);
    if c.questionMarks {
      assert IsTrimmed(Placeholder);
      ReplaceAllKeepsTrimmed(t, '?', Placeholder);
    }
    AddSemiColonKeepsTrimmed(Cleaned(c, stmt));
  }

  /** Terminating a trimmed statement leaves it trimmed. */
  lemma AddSemiColonKeepsTrimmed(s: string)
    requires IsTrimmed(s)
    ensures IsTrimmed(AddSemiColon(s))
  {
    if !HasSuffix(s, ";") {
      var r := s + ";";
      assert r[|r| - 1] == ';';
      assert s != [] ==> r[0] == s[0];
    }
  }

  /** Normalising is idempotent under every configuration. */
  lemma NormalizeIdempotent(c: Config, stmt: string)
    ensures Normalize(c, Normalize(c, stmt)) == Normalize(c, stmt)
  {
    var r := Normalize(c, stmt);
    if c.trimWhiteSpace {
      NormalizeTrimmed(c, stmt);
      TrimSpaceOfTrimmed(r);
    }
  }

  /** The normalised value under every configuration, for any statement written as an
      all-space head, a trimmed middle and an all-space tail: the middle (or, with
      trimming off, the whole statement) with its placeholders substituted if enabled,
      and a `;` appended if enabled and the substituted text does not end in one. */
  lemma NormalizeSteps(c: Config, p: string, t: string, q: string)
    requires AllSpace(p) && AllSpace(q) && IsTrimmed(t)
    ensures var u := if c.trimWhiteSpace then t else p + t + q;
      var v := if c.questionMarks then SubstitutePlaceholders(u) else u;
      Normalize(c, p + t + q) == if c.addSemiColon && !HasSuffix(v, ";") then v + ";" else v
  {
    if c.trimWhiteSpace {
      TrimSpaceUnique(p, t, q);
    }
  }

  /** With trimming on, the `;` test sees the trimmed text: white space around a
      statement changes nothing, so a statement that already ends in `;` and is
      followed by a line feed gets no second terminator. */
  lemma NormalizeIgnoresSurroundingSpace(c: Config, p: string, t: string, q: string)
    requires c.trimWhiteSpace && AllSpace(p) && AllSpace(q) && IsTrimmed(t)
    ensures Normalize(c, p + t + q) == Normalize(c, t)
  {
    TrimSpaceUnique(p, t, q);
    TrimSpaceOfTrimmed(t);
    assert Cleaned(c, p + t + q) == Cleaned(c, t);
  }

  // ---------------------------------------------------------------------------
  // Splitting
  // ---------------------------------------------------------------------------

  /** The text up to and including the first `;` becomes the first fragment; the
      rest is split and shaped on its own. */
  lemma FragmentsCons(line: string, rest: string)
    requires ';' !in line
    ensures Fragments(line + ";" + rest) == [ShapeFragment(line + ";")] + Fragments(rest)
  {
    var s := line + ";" + rest;
    SplitAfterFirst(line, ';', rest);
    assert line + [';'] + rest == s;
    var pieces := SplitAfter(s, ';');
    assert pieces[0] == line + ";";
    assert pieces[1..] == SplitAfter(rest, ';');
  }

  /** Two `;`-separated statements under the default configuration are sent as two
      fragments, each with its placeholders substituted and its own terminator. */
  lemma DefaultConfigTwoStatements(checker: Option<string -> bool>, a: string, b: string)
    requires IsTrimmed(a + ";" + b) && ';' !in a && ';' !in b && b != []
    ensures Fragments(Normalize(Config(true, true, true, checker), a + ";" + b)) ==
      [ShapeFragment(SubstitutePlaceholders(a) + ";"), ShapeFragment(SubstitutePlaceholders(b) + ";")]
  {
    var sa, sb := SubstitutePlaceholders(a), SubstitutePlaceholders(b);
    TwoStatementsNormalized(checker, a, b);
    FragmentsCons(sa, sb + ";");
    OneTerminatedPiece(sb);
  }

  /** The default configuration substitutes both statements and terminates the
      second; neither substituted statement holds a `;`. */
  lemma TwoStatementsNormalized(checker: Option<string -> bool>, a: string, b: string)
    requires IsTrimmed(a + ";" + b) && ';' !in a && ';' !in b && b != []
    ensures ';' !in SubstitutePlaceholders(a) && ';' !in SubstitutePlaceholders(b)
    ensures Normalize(Config(true, true, true, checker), a + ";" + b) ==
      SubstitutePlaceholders(a) + ";" + (SubstitutePlaceholders(b) + ";")
  {
    var sa, sb := SubstitutePlaceholders(a), SubstitutePlaceholders(b);
    assert ';' !in Placeholder;
    SubstitutePlaceholdersKeepsCount(a, ';');
    SubstitutePlaceholdersKeepsCount(b, ';');
    SubstituteAroundTerminator(a, b);
    var r := sa + ";" + sb;
    NotTerminatedByLast(r, sb);
    NormalizeUnterminated(checker, a + ";" + b);
    AppendAssociative(sa + ";", sb, ";");
  }

  /** A leading line feed brings in no other character. */
  lemma LineFeedKeepsOut(t: string, c: char)
    requires c != '\n' && c !in t
    ensures c !in "\n" + t
  {
  }

  /** Appending keeps a prefix. */
  lemma PrefixKept(t: string, x: string, p: string)
    requires HasPrefix(t, p)
    ensures HasPrefix(t + x, p)
  {
    assert (t + x)[..|p|] == t[..|p|];
  }

  lemma AppendAssociative(x: string, y: string, z: string)
    ensures x + (y + z) == (x + y) + z
  {
  }

  /** Substitution leaves a `;` between two statements in place. */
  lemma SubstituteAroundTerminator(a: string, b: string)
    ensures SubstitutePlaceholders(a + ";" + b) ==
      SubstitutePlaceholders(a) + ";" + SubstitutePlaceholders(b)
  {
    SubstitutePlaceholdersAppend(a + ";", b);
    SubstitutePlaceholdersAppend(a, ";");
    SubstitutePlaceholdersChar(';');
  }

  /** Under the default configuration a trimmed statement whose substituted text does
      not end in `;` is substituted and terminated. */
  lemma NormalizeUnterminated(checker: Option<string -> bool>, s: string)
    requires IsTrimmed(s) && !HasSuffix(SubstitutePlaceholders(s), ";")
    ensures Normalize(Config(true, true, true, checker), s) == SubstitutePlaceholders(s) + ";"
  {
    TrimSpaceOfTrimmed(s);
  }

  /** A text whose last character comes from a `;`-free non-empty tail does not end
      with `;`. */
  lemma NotTerminatedByLast(r: string, tail: string)
    requires tail != [] && ';' !in tail && HasSuffix(r, tail)
    ensures !HasSuffix(r, ";")
  {
    assert r[|r| - 1] == tail[|tail| - 1];
    assert r[|r| - 1..] == [r[|r| - 1]];
  }

  /** The keyword test looks at the raw piece, before line feeds are dropped: a piece
      that starts with a line feed and then the keyword gets the keyword again. */
  lemma ShapeFragmentLeadingLineFeed(t: string)
    requires HasPrefix(t, ExecSql)
    ensures ShapeFragment("\n" + t) == ExecSql + " " + ReplaceAll(t, '\n', [])
  {
    LineFeedHidesKeyword(t);
    DropLeadingLineFeed(t);
  }

  /** A piece that starts with a line feed does not start with the keyword. */
  lemma LineFeedHidesKeyword(t: string)
    ensures !HasPrefix("\n" + t, ExecSql)
  {
    assert ("\n" + t)[0] == '\n';
  }

  /** Dropping line feeds removes a leading one. */
  lemma DropLeadingLineFeed(t: string)
    ensures ReplaceAll("\n" + t, '\n', []) == ReplaceAll(t, '\n', [])
  {
    var s := "\n" + t;
    assert s[0] == '\n' && s[1..] == t;
  }

  /** A statement on the line after a terminated one is sent with a doubled keyword
      when it already starts with `EXEC SQL`: its piece begins with the line feed. */
  lemma KeywordAfterLineFeed(a: string, t: string)
    requires ';' !in a && ';' !in t && HasPrefix(t, ExecSql)
    ensures Fragments(a + ";" + ("\n" + t + ";")) ==
      [ShapeFragment(a + ";"), ExecSql + " " + ReplaceAll(t + ";", '\n', [])]
  {
    var u := "\n" + t;
    FragmentsCons(a, u + ";");
    LineFeedKeepsOut(t, ';');
    OneTerminatedPiece(u);
    AppendAssociative("\n", t, ";");
    PrefixKept(t, ";", ExecSql);
    ShapeFragmentLeadingLineFeed(t + ";");
  }

  /** A statement with no `;` and no line feed, once terminated, becomes one
      fragment: the keyword, a space and the statement (unless it already starts
      with the keyword). */
  lemma SingleStatement(stmt: string)
    requires ';' !in stmt && '\n' !in stmt
    ensures Fragments(stmt + ";") ==
      if HasPrefix(stmt, ExecSql) then [stmt + ";"] else [ExecSql + " " + stmt + ";"]
  {
    OneTerminatedPiece(stmt);
    ShapeTerminated(stmt);
  }

  /** The shape given to a terminated one-line statement. */
  lemma ShapeTerminated(stmt: string)
    requires ';' !in stmt && '\n' !in stmt
    ensures ShapeFragment(stmt + ";") ==
      if HasPrefix(stmt, ExecSql) then stmt + ";" else ExecSql + " " + stmt + ";"
  {
    var s := stmt + ";";
    assert '\n' !in s;
    TerminatedPrefix(stmt);
    if !HasPrefix(stmt, ExecSql) {
      assert ExecSql + " " + s == ExecSql + " " + stmt + ";";
    }
  }

  /** A terminated statement with no other `;` is shaped as one piece. */
  lemma OneTerminatedPiece(stmt: string)
    requires ';' !in stmt
    ensures Fragments(stmt + ";") == [ShapeFragment(stmt + ";")]
  {
    var s := stmt + ";";
    SplitAfterFirst(stmt, ';', []);
    assert stmt + [';'] + [] == s;
    var pieces := SplitAfter(s, ';');
    assert pieces == [s, []];
    assert pieces[1..] == [[]];
    assert ShapePieces([[]]) == [] + ShapePieces([]);
  }

  /** Terminating a statement that has no `;` does not change whether it starts with
      the keyword. */
  lemma TerminatedPrefix(stmt: string)
    requires ';' !in stmt
    ensures HasPrefix(stmt + ";", ExecSql) <==> HasPrefix(stmt, ExecSql)
  {
    var s := stmt + ";";
    if |ExecSql| <= |stmt| {
      assert s[..|ExecSql|] == stmt[..|ExecSql|];
    } else if |ExecSql| == |s| {
      assert s[|ExecSql| - 1] == ';' != ExecSql[|ExecSql| - 1];
    }
  }

  /** The guard tests the untrimmed text: an all-space statement is trimmed to nothing
      and, with terminators added, sent to ecpg as the lone fragment `EXEC SQL ;`;
      without terminators nothing at all is sent. */
  lemma AllSpaceStatement(c: Config, stmt: string)
    requires stmt != [] && AllSpace(stmt) && c.trimWhiteSpace
    ensures c.addSemiColon ==> Fragments(Normalize(c, stmt)) == ["EXEC SQL ;"]
    ensures !c.addSemiColon ==> Fragments(Normalize(c, stmt)) == []
  {
    NormalizeAllSpace(c, stmt);
    TerminatorAlone();
    FragmentsOfNothing();
  }

  /** A lone terminator is sent as the keyword followed by a space and `;`. */
  lemma TerminatorAlone()
    ensures Fragments(";") == ["EXEC SQL ;"]
  {
    SingleStatement([]);
    assert [] + ";" == ";";
    assert ExecSql + " " + [] + ";" == "EXEC SQL ;";
  }

  /** Trimming leaves nothing of an all-space statement but the terminator, if any. */
  lemma NormalizeAllSpace(c: Config, stmt: string)
    requires AllSpace(stmt) && c.trimWhiteSpace
    ensures Normalize(c, stmt) == if c.addSemiColon then ";" else []
  {
    TrimSpaceOfSpaces(stmt);
    assert Cleaned(c, stmt) == [];
    if c.addSemiColon {
      assert !HasSuffix([], ";");
      assert AddSemiColon([]) == [] + ";";
    }
  }

  /** Nothing to split sends nothing. */
  lemma FragmentsOfNothing()
    ensures Fragments([]) == []
  {
    assert SplitAfter([], ';') == [[]];
    assert ShapePieces([[]]) == [] + ShapePieces([]);
  }

  /** Under the default configuration (every flag on), a one-line statement with no
      `;` and no surrounding space is sent as exactly one fragment: the statement with
      its placeholders substituted and a terminator added, behind the keyword unless it
      already starts with it. */
  lemma DefaultConfigStatement(checker: Option<string -> bool>, stmt: string)
    requires IsTrimmed(stmt) && ';' !in stmt && '\n' !in stmt
    ensures Fragments(Normalize(Config(true, true, true, checker), stmt)) ==
      if HasPrefix(SubstitutePlaceholders(stmt), ExecSql)
      then [SubstitutePlaceholders(stmt) + ";"]
      else [ExecSql + " " + SubstitutePlaceholders(stmt) + ";"]
  {
    NormalizeDefault(checker, stmt);
    LineFeedFree(stmt);
    SingleStatement(SubstitutePlaceholders(stmt));
  }

  /** Placeholder substitution brings in no line feed. */
  lemma LineFeedFree(stmt: string)
    requires '\n' !in stmt
    ensures '\n' !in SubstitutePlaceholders(stmt)
  {
    assert '\n' !in Placeholder;
    SubstitutePlaceholdersKeepsCount(stmt, '\n');
  }

  /** The default configuration substitutes the placeholders of such a statement and
      terminates it. */
  lemma NormalizeDefault(checker: Option<string -> bool>, stmt: string)
    requires IsTrimmed(stmt) && ';' !in stmt
    ensures ';' !in SubstitutePlaceholders(stmt)
    ensures Normalize(Config(true, true, true, checker), stmt) == SubstitutePlaceholders(stmt) + ";"
  {
    assert ';' !in Placeholder;
    SubstitutePlaceholdersKeepsCount(stmt, ';');
    NotTerminated(SubstitutePlaceholders(stmt));
    NormalizeUnterminated(checker, stmt);
  }

  /** Text without any `;` does not end with one. */
  lemma NotTerminated(s: string)
    requires ';' !in s
    ensures !HasSuffix(s, ";")
  {
    if s != [] {
      assert s[|s| - 1..] == [s[|s| - 1]];
    }
  }

  // ---------------------------------------------------------------------------
  // Construction
  // ---------------------------------------------------------------------------

  /** Construction consults the checker only about `ecpg --help`: two configurations
      with the same flags whose effective checkers agree there are accepted or
      rejected together, and build linters with the same flags. */
  lemma NewEcpgDependsOnlyOnProbe(
    c1: Config, d1: string -> bool, c2: Config, d2: string -> bool)
    requires SameFlags(c1, c2)
    requires WithDefaultChecker(c1, d1).dependencyChecker.value(DepEcpg)
      == WithDefaultChecker(c2, d2).dependencyChecker.value(DepEcpg)
    ensures NewEcpg(c1, d1).Success? == NewEcpg(c2, d2).Success?
    ensures NewEcpg(c1, d1).Success? ==>
      SameFlags(NewEcpg(c1, d1).value.config, NewEcpg(c2, d2).value.config)
  {
  }

  /** The two outcomes of the construction test: a checker that says yes gives a
      linter with the given flags, one that says no gives the dependency error. */
  lemma NewEcpgExamples(d: string -> bool)
    ensures var r := NewEcpg(Config(true, true, true, Some(_ => true)), d);
      r.Success? && r.value.config.addSemiColon && r.value.config.trimWhiteSpace
      && r.value.config.questionMarks
    ensures NewEcpg(Config(true, true, true, Some(_ => false)), d) == Failure(MissingDependency)
  {
  }
}
