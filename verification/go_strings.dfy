/** The calls into Go's `strings` package that the ecpg wrapper makes, written as pure
    functions on `string` (= `seq<char>`) and characterised by their contracts and the
    lemmas next to them. `Count`, `Concat` and `Join` are not calls the wrapper makes;
    they are here to state those properties. */
module GoStrings {
  import opened Results

  // ---------------------------------------------------------------------------
  // Counting and membership
  // ---------------------------------------------------------------------------

  /** Number of occurrences of `c` in `s`; used to state properties, not a model of a call. */
  function Count(s: string, c: char): (n: nat)
    ensures n <= |s|
    ensures n == 0 <==> c !in s
    decreases |s|
  {
    if s == [] then 0
    else (if s[0] == c then 1 else 0) + Count(s[1..], c)
  }

  lemma {:induction false} CountAppend(a: string, b: string, c: char)
    ensures Count(a + b, c) == Count(a, c) + Count(b, c)
    decreases |a|
  {
    if a == [] {
      assert a + b == b;
    } else {
      assert (a + b)[1..] == a[1..] + b;
      CountAppend(a[1..], b, c);
    }
  }

  // ---------------------------------------------------------------------------
  // Prefixes and suffixes
  // ---------------------------------------------------------------------------

  /** Go's `strings.HasPrefix`. */
  predicate HasPrefix(s: string, p: string) {
    |p| <= |s| && s[..|p|] == p
  }

  /** Go's `strings.HasSuffix`. */
  predicate HasSuffix(s: string, p: string) {
    |p| <= |s| && s[|s| - |p|..] == p
  }

  // ---------------------------------------------------------------------------
  // Whitespace trimming
  // ---------------------------------------------------------------------------

  /** Go's `unicode.IsSpace`: the Latin-1 spaces (tab, newline, vertical tab, form feed,
      carriage return, space, NEL, no-break space) and the other characters with the
      Unicode White_Space property. */
  predicate IsSpace(c: char) {
    || ('\t' <= c <= '\r')
    || c == ' '
    || c == '\U{0085}'
    || c == '\U{00A0}'
    || c == '\U{1680}'
    || ('\U{2000}' <= c <= '\U{200A}')
    || c == '\U{2028}'
    || c == '\U{2029}'
    || c == '\U{202F}'
    || c == '\U{205F}'
    || c == '\U{3000}'
  }

  predicate AllSpace(s: string) {
    forall i :: 0 <= i < |s| ==> IsSpace(s[i])
  }

  /** A string with nothing left for `TrimSpace` to remove. */
  predicate IsTrimmed(s: string) {
    s == [] || (!IsSpace(s[0]) && !IsSpace(s[|s| - 1]))
  }

  /** Length of the longest all-space prefix of `s`. */
  function LeadingSpaces(s: string): (n: nat)
    ensures n <= |s|
    ensures AllSpace(s[..n])
    ensures n == |s| || !IsSpace(s[n])
    decreases |s|
  {
    if s != [] && IsSpace(s[0]) then
      var m := LeadingSpaces(s[1..]);
      assert s[..m + 1] == [s[0]] + s[1..][..m];
      m + 1
    else 0
  }

  /** Length of the longest all-space suffix of `s`. */
  function TrailingSpaces(s: string): (n: nat)
    ensures n <= |s|
    ensures AllSpace(s[|s| - n..])
    ensures n == |s| || !IsSpace(s[|s| - n - 1])
    decreases |s|
  {
    if s != [] && IsSpace(s[|s| - 1]) then
      var m := TrailingSpaces(s[..|s| - 1]);
      assert s[|s| - (m + 1)..] == s[..|s| - 1][|s| - 1 - m..] + [s[|s| - 1]];
      m + 1
    else 0
  }

  /** Go's `strings.TrimSpace`: `s` is an all-space head, the result, and an all-space
      tail, and the result has nothing left to trim. */
  function TrimSpace(s: string): (r: string)
    ensures |r| <= |s|
    ensures IsTrimmed(r)
    ensures var a := LeadingSpaces(s);
      && a + |r| <= |s|
      && s[a..a + |r|] == r
      && AllSpace(s[..a])
      && AllSpace(s[a + |r|..])
  {
    var a := LeadingSpaces(s);
    if a == |s| then []
    else
      var b := TrailingSpaces(s);
      assert s[a..|s| - b][0] == s[a];
      s[a..|s| - b]
  }

  /** The leading run of spaces ends where a non-space starts. */
  lemma {:induction false} LeadingSpacesOf(p: string, u: string)
    requires AllSpace(p)
    requires u == [] || !IsSpace(u[0])
    ensures LeadingSpaces(p + u) == |p|
    decreases |p|
  {
    if p == [] {
      assert p + u == u;
    } else {
      assert (p + u)[0] == p[0];
      assert (p + u)[1..] == p[1..] + u;
      LeadingSpacesOf(p[1..], u);
    }
  }

  /** The trailing run of spaces starts where a non-space ends. */
  lemma {:induction false} TrailingSpacesOf(u: string, q: string)
    requires AllSpace(q)
    requires u == [] || !IsSpace(u[|u| - 1])
    ensures TrailingSpaces(u + q) == |q|
    decreases |q|
  {
    if q == [] {
      assert u + q == u;
    } else {
      var s := u + q;
      assert s[|s| - 1] == q[|q| - 1];
      assert s[..|s| - 1] == u + q[..|q| - 1];
      TrailingSpacesOf(u, q[..|q| - 1]);
    }
  }

  /** The characterisation of `TrimSpace` is unique: whatever all-space head and tail
      surround a trimmed middle, `TrimSpace` returns that middle. */
  lemma TrimSpaceUnique(p: string, t: string, q: string)
    requires AllSpace(p) && AllSpace(q) && IsTrimmed(t)
    ensures TrimSpace(p + t + q) == t
  {
    var s := p + t + q;
    if t == [] {
      assert s == (p + q) + [];
      assert AllSpace(p + q) by {
        forall i | 0 <= i < |p + q| ensures IsSpace((p + q)[i]) {
          if i < |p| { assert (p + q)[i] == p[i]; } else { assert (p + q)[i] == q[i - |p|]; }
        }
      }
      LeadingSpacesOf(p + q, []);
    } else {
      assert s == p + (t + q);
      LeadingSpacesOf(p, t + q);
      assert s == (p + t) + q;
      TrailingSpacesOf(p + t, q);
      assert s[|p|..|s| - |q|] == t;
    }
  }

  lemma TrimSpaceOfTrimmed(t: string)
    requires IsTrimmed(t)
    ensures TrimSpace(t) == t
  {
    TrimSpaceUnique([], t, []);
    assert [] + t + [] == t;
  }

  /** An all-space string trims to nothing. */
  lemma TrimSpaceOfSpaces(s: string)
    requires AllSpace(s)
    ensures TrimSpace(s) == []
  {
    TrimSpaceUnique(s, [], []);
    assert s + [] + [] == s;
  }

  /** Trimming adds no character. */
  lemma TrimSpaceKeepsOut(s: string, c: char)
    requires c !in s
    ensures c !in TrimSpace(s)
  {
    var r := TrimSpace(s);
    var a := LeadingSpaces(s);
    assert forall k :: 0 <= k < |r| ==> r[k] == s[a + k];
  }

  /** Trimming removes only spaces, so it never changes the count of a non-space. */
  lemma TrimSpaceKeepsCount(s: string, c: char)
    requires !IsSpace(c)
    ensures Count(TrimSpace(s), c) == Count(s, c)
  {
    var r := TrimSpace(s);
    var a := LeadingSpaces(s);
    var b := a + |r|;
    CountThreeParts(s, a, b, c);
    assert s[a..b] == r;
    NoneInSpaces(s[..a], c);
    NoneInSpaces(s[b..], c);
  }

  /** Counting over three consecutive slices. */
  lemma CountThreeParts(s: string, a: nat, b: nat, c: char)
    requires a <= b <= |s|
    ensures Count(s, c) == Count(s[..a], c) + Count(s[a..b], c) + Count(s[b..], c)
  {
    assert s == s[..a] + s[a..b] + s[b..];
    CountAppend(s[..a] + s[a..b], s[b..], c);
    CountAppend(s[..a], s[a..b], c);
  }

  /** An all-space string holds no non-space character. */
  lemma NoneInSpaces(p: string, c: char)
    requires AllSpace(p) && !IsSpace(c)
    ensures Count(p, c) == 0
  {
    assert c !in p;
  }

  // ---------------------------------------------------------------------------
  // Searching
  // ---------------------------------------------------------------------------

  /** The first position at which `pat` occurs in `s`: the search that Go's
      `strings.Replace(s, pat, "", 1)` makes before deleting, used by `RemoveFirst`. */
  function Index(s: string, pat: string): (r: Option<nat>)
    ensures r.Some? ==> r.value + |pat| <= |s| && HasPrefix(s[r.value..], pat)
    ensures r.Some? ==> forall j :: 0 <= j < r.value ==> !HasPrefix(s[j..], pat)
    ensures r.None? ==> forall j :: 0 <= j <= |s| ==> !HasPrefix(s[j..], pat)
    decreases |s|
  {
    if HasPrefix(s, pat) then Some(0)
    else if s == [] then None
    else match Index(s[1..], pat)
      case None =>
        assert forall j :: 1 <= j <= |s| ==> s[j..] == s[1..][j - 1..];
        None
      case Some(i) =>
        assert forall j :: 1 <= j <= |s| ==> s[j..] == s[1..][j - 1..];
        Some(i + 1)
  }

  // ---------------------------------------------------------------------------
  // Replacing
  // ---------------------------------------------------------------------------

  /** What one character of `s` becomes under `ReplaceAll(s, c, rep)`. */
  function Image(x: char, c: char, rep: string): string {
    if x == c then rep else [x]
  }

  /** Go's `strings.Replace(s, string(c), rep, -1)`: every `c` becomes `rep`,
      every other character is kept, in order. */
  function ReplaceAll(s: string, c: char, rep: string): (r: string)
    ensures c !in rep ==> c !in r
    ensures c !in s ==> r == s
    decreases |s|
  {
    if s == [] then [] else Image(s[0], c, rep) + ReplaceAll(s[1..], c, rep)
  }

  /** Replacement keeps every character that is neither replaced nor introduced. */
  lemma {:induction false} ReplaceAllKeepsCount(s: string, c: char, rep: string, x: char)
    requires x != c && x !in rep
    ensures Count(ReplaceAll(s, c, rep), x) == Count(s, x)
    decreases |s|
  {
    if s != [] {
      ReplaceAllKeepsCount(s[1..], c, rep, x);
      CountAppend(Image(s[0], c, rep), ReplaceAll(s[1..], c, rep), x);
      if s[0] == c {
        assert Count(rep, x) == 0;
      } else {
        assert Count([s[0]], x) == (if s[0] == x then 1 else 0);
      }
    }
  }

  /** Replacement distributes over concatenation: it works character by character,
      so it keeps the order of everything it does not touch. */
  lemma {:induction false} ReplaceAllAppend(a: string, b: string, c: char, rep: string)
    ensures ReplaceAll(a + b, c, rep) == ReplaceAll(a, c, rep) + ReplaceAll(b, c, rep)
    decreases |a|
  {
    if a == [] {
      assert a + b == b;
    } else {
      assert (a + b)[0] == a[0];
      assert (a + b)[1..] == a[1..] + b;
      ReplaceAllAppend(a[1..], b, c, rep);
    }
  }

  /** Each occurrence of `c` lengthens the string by `|rep| - 1`. */
  lemma {:induction false} ReplaceAllLength(s: string, c: char, rep: string)
    ensures |ReplaceAll(s, c, rep)| == |s| + Count(s, c) * (|rep| - 1)
    decreases |s|
  {
    if s != [] {
      ReplaceAllLength(s[1..], c, rep);
      var k := |rep| - 1;
      var n := Count(s[1..], c);
      if s[0] == c {
        assert (n + 1) * k == n * k + k;
      }
    }
  }

  /** Replacing with text free of `c` is idempotent. */
  lemma ReplaceAllIdempotent(s: string, c: char, rep: string)
    requires c !in rep
    ensures ReplaceAll(ReplaceAll(s, c, rep), c, rep) == ReplaceAll(s, c, rep)
  {
  }

  /** Go's `strings.Replace(s, pat, "", 1)`: delete the first occurrence of `pat`
      (an empty `pat` occurs at the start and deleting it changes nothing). */
  function RemoveFirst(s: string, pat: string): (r: string)
    ensures Index(s, pat).None? ==> r == s
    ensures Index(s, pat).Some? ==> |r| == |s| - |pat|
    ensures HasPrefix(s, pat) ==> r == s[|pat|..]
  {
    match Index(s, pat)
    case None => s
    case Some(i) => s[..i] + s[i + |pat|..]
  }

  /** Deleting an occurrence adds no character. */
  lemma RemoveFirstKeepsOut(s: string, pat: string, c: char)
    requires c !in s
    ensures c !in RemoveFirst(s, pat)
  {
    match Index(s, pat)
    case None =>
    case Some(i) =>
      var r := s[..i] + s[i + |pat|..];
      assert forall k :: 0 <= k < |r| ==> r[k] in s;
  }

  // ---------------------------------------------------------------------------
  // Splitting and joining
  // ---------------------------------------------------------------------------

  /** Concatenation of all pieces, in order. */
  function Concat(pieces: seq<string>): string
    decreases |pieces|
  {
    if pieces == [] then [] else pieces[0] + Concat(pieces[1..])
  }

  lemma {:induction false} ConcatSnoc(pieces: seq<string>, last: string)
    ensures Concat(pieces + [last]) == Concat(pieces) + last
    decreases |pieces|
  {
    if pieces == [] {
      assert pieces + [last] == [last];
    } else {
      assert (pieces + [last])[1..] == pieces[1..] + [last];
      ConcatSnoc(pieces[1..], last);
    }
  }

  /** `pieces` joined with `sep` between neighbours; used to state that `Split` loses
      nothing, not a model of a call. */
  function Join(pieces: seq<string>, sep: char): string
    decreases |pieces|
  {
    if pieces == [] then []
    else if |pieces| == 1 then pieces[0]
    else pieces[0] + [sep] + Join(pieces[1..], sep)
  }

  /** Go's `strings.SplitAfter(s, string(sep))`: cut after every `sep`, keeping each
      `sep` at the end of its piece. Its properties are the lemmas below. */
  function SplitAfter(s: string, sep: char): (pieces: seq<string>)
    ensures pieces != []
    decreases |s|
  {
    if s == [] then [[]]
    else
      var rest := SplitAfter(s[1..], sep);
      if s[0] == sep then [[sep]] + rest
      else [[s[0]] + rest[0]] + rest[1..]
  }

  /** One piece more than there are separators. */
  lemma {:induction false} SplitAfterCount(s: string, sep: char)
    ensures |SplitAfter(s, sep)| == Count(s, sep) + 1
    decreases |s|
  {
    if s != [] {
      SplitAfterCount(s[1..], sep);
    }
  }

  /** The pieces put back together give the text. */
  lemma {:induction false} SplitAfterConcat(s: string, sep: char)
    ensures Concat(SplitAfter(s, sep)) == s
    decreases |s|
  {
    if s != [] {
      SplitAfterConcat(s[1..], sep);
      var rest := SplitAfter(s[1..], sep);
      if s[0] == sep {
        assert ([[sep]] + rest)[1..] == rest;
      } else {
        var first := [s[0]] + rest[0];
        assert ([first] + rest[1..])[1..] == rest[1..];
        assert Concat(rest) == rest[0] + Concat(rest[1..]);
      }
    }
  }

  /** A piece that is not the last: non-empty, ending in `sep`, holding exactly one `sep`. */
  predicate IsSplitAfterPiece(piece: string, sep: char) {
    piece != [] && piece[|piece| - 1] == sep && Count(piece, sep) == 1
  }

  /** Every piece but the last is non-empty, ends in `sep` and holds exactly one `sep`. */
  lemma {:induction false} SplitAfterPieces(s: string, sep: char)
    ensures forall k :: 0 <= k < |SplitAfter(s, sep)| - 1 ==> IsSplitAfterPiece(SplitAfter(s, sep)[k], sep)
    decreases |s|
  {
    if s != [] {
      SplitAfterPieces(s[1..], sep);
      var rest := SplitAfter(s[1..], sep);
      if s[0] == sep {
        var pieces := [[sep]] + rest;
        assert SplitAfter(s, sep) == pieces;
        assert [sep][1..] == [];
        assert Count([sep], sep) == 1;
        assert IsSplitAfterPiece([sep], sep);
        assert forall k :: 1 <= k < |pieces| ==> pieces[k] == rest[k - 1];
      } else {
        var first := [s[0]] + rest[0];
        var pieces := [first] + rest[1..];
        assert forall k :: 1 <= k < |pieces| ==> pieces[k] == rest[k];
        if |rest| > 1 {
          assert first[1..] == rest[0];
        }
      }
    }
  }

  /** The last piece holds no `sep`. */
  lemma {:induction false} SplitAfterLast(s: string, sep: char)
    ensures var pieces := SplitAfter(s, sep); sep !in pieces[|pieces| - 1]
    decreases |s|
  {
    if s != [] {
      SplitAfterLast(s[1..], sep);
      var rest := SplitAfter(s[1..], sep);
      if s[0] != sep && |rest| == 1 {
        assert ([s[0]] + rest[0])[1..] == rest[0];
      }
    }
  }

  /** Go's `strings.Split(s, string(sep))`: the pieces between the separators. Its
      properties are the lemmas below. */
  function Split(s: string, sep: char): (pieces: seq<string>)
    ensures pieces != []
    decreases |s|
  {
    if s == [] then [[]]
    else
      var rest := Split(s[1..], sep);
      if s[0] == sep then [[]] + rest
      else [[s[0]] + rest[0]] + rest[1..]
  }

  /** One line more than there are separators, and no line holds a separator. */
  lemma {:induction false} SplitPieces(s: string, sep: char)
    ensures |Split(s, sep)| == Count(s, sep) + 1
    ensures forall k :: 0 <= k < |Split(s, sep)| ==> sep !in Split(s, sep)[k]
    decreases |s|
  {
    if s != [] {
      SplitPieces(s[1..], sep);
      var rest := Split(s[1..], sep);
      if s[0] == sep {
        var pieces := [[]] + rest;
        assert forall k :: 1 <= k < |pieces| ==> pieces[k] == rest[k - 1];
      } else {
        var pieces := [[s[0]] + rest[0]] + rest[1..];
        assert forall k :: 1 <= k < |pieces| ==> pieces[k] == rest[k];
      }
    }
  }

  /** Joining the lines with the separator gives the text back. */
  lemma {:induction false} SplitJoin(s: string, sep: char)
    ensures Join(Split(s, sep), sep) == s
    decreases |s|
  {
    if s != [] {
      SplitJoin(s[1..], sep);
      var rest := Split(s[1..], sep);
      if s[0] == sep {
        var pieces := [[]] + rest;
        assert Split(s, sep) == pieces;
        assert |pieces| >= 2;
        assert pieces[1..] == rest;
        assert Join(pieces, sep) == pieces[0] + [sep] + Join(rest, sep);
        assert [] + [sep] + s[1..] == s;
      } else {
        var pieces := [[s[0]] + rest[0]] + rest[1..];
        if |rest| > 1 {
          assert pieces[1..] == rest[1..];
        }
      }
    }
  }

  /** The first piece of `s` runs up to and including the first `sep`. */
  lemma {:induction false} SplitAfterFirst(line: string, sep: char, rest: string)
    requires sep !in line
    ensures SplitAfter(line + [sep] + rest, sep) == [line + [sep]] + SplitAfter(rest, sep)
    decreases |line|
  {
    var s := line + [sep] + rest;
    if line == [] {
      assert s == [sep] + rest;
      assert s[1..] == rest;
    } else {
      assert s[0] == line[0];
      assert s[1..] == line[1..] + [sep] + rest;
      SplitAfterFirst(line[1..], sep, rest);
      assert [line[0]] + (line[1..] + [sep]) == line + [sep];
    }
  }

  /** The first line of `s` is everything before the first `sep`. */
  lemma {:induction false} SplitFirst(line: string, sep: char, rest: string)
    requires sep !in line
    ensures Split(line + [sep] + rest, sep) == [line] + Split(rest, sep)
    decreases |line|
  {
    var s := line + [sep] + rest;
    if line == [] {
      assert s == [sep] + rest;
      assert s[1..] == rest;
    } else {
      assert s[0] == line[0];
      assert s[1..] == line[1..] + [sep] + rest;
      SplitFirst(line[1..], sep, rest);
      assert [line[0]] + line[1..] == line;
    }
  }

  lemma {:induction false} SplitNoSeparator(s: string, sep: char)
    requires sep !in s
    ensures Split(s, sep) == [s]
    decreases |s|
  {
    if s != [] {
      SplitNoSeparator(s[1..], sep);
      assert [s[0]] + s[1..] == s;
    }
  }
}
