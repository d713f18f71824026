/** The FROM-clause rewriter of the time-travel helpers.

    The source rewrites a query with one case-insensitive regular-expression
    substitution: every match of `from\s+([\w\._]+)\s` is replaced by
    `from \1 <clause> `. Here the substitution is written out as a
    left-to-right scan over the positions of the query. The character
    classes are those of the pattern restricted to ASCII. */
module ClauseInjector {
  import opened Wrappers

  /** `\s` on ASCII: space, tab, newline, vertical tab, form feed, carriage
      return, and the four separators 0x1C to 0x1F. */
  predicate IsSpace(c: char) {
    c == ' ' || (9 <= c as int <= 13) || (28 <= c as int <= 31)
  }

  /** `[\w\._]` on ASCII: letters, digits, underscore and dot. */
  predicate IsIdentChar(c: char) {
    ('a' <= c <= 'z') || ('A' <= c <= 'Z') || ('0' <= c <= '9') || c == '_' || c == '.'
  }

  /** The letter `f` in either case, the only character a match can start with. */
  predicate IsF(c: char) {
    c == 'f' || c == 'F'
  }

  /** The literal `from`, in any letter case, at position `i` of `s`. */
  predicate IsFromKeyword(s: string, i: nat)
    requires i + 4 <= |s|
  {
    && IsF(s[i])
    && (s[i + 1] == 'r' || s[i + 1] == 'R')
    && (s[i + 2] == 'o' || s[i + 2] == 'O')
    && (s[i + 3] == 'm' || s[i + 3] == 'M')
  }

  /** The two repeated character classes of the pattern. */
  datatype CharClass = Whitespace | TableName

  predicate InClass(c: char, k: CharClass) {
    match k
    case Whitespace => IsSpace(c)
    case TableName => IsIdentChar(c)
  }

  /** How many characters a greedy `\s+` or `[\w\._]+` takes from position `i` of `s`. */
  function RunLength(s: string, i: nat, k: CharClass): (n: nat)
    requires i <= |s|
    ensures i + n <= |s|
    decreases |s| - i
  {
    if i == |s| || !InClass(s[i], k) then 0 else 1 + RunLength(s, i + 1, k)
  }

  /** RunLength measures the longest run: every character it counts is of
      the class, and the character after them is not. */
  lemma {:induction false} RunLengthMaximal(s: string, i: nat, k: CharClass)
    requires i <= |s|
    ensures forall j :: i <= j < i + RunLength(s, i, k) ==> InClass(s[j], k)
    ensures i + RunLength(s, i, k) < |s| ==> !InClass(s[i + RunLength(s, i, k)], k)
    decreases |s| - i
  {
    if i < |s| && InClass(s[i], k) {
      RunLengthMaximal(s, i + 1, k);
    }
  }

  /** A run of exactly `n` characters of class `k`, ended by the end of the
      text or by a character of another class, is what RunLength measures. */
  lemma {:induction false} RunLengthExact(s: string, i: nat, k: CharClass, n: nat)
    requires i + n <= |s|
    requires forall j :: i <= j < i + n ==> InClass(s[j], k)
    requires i + n < |s| ==> !InClass(s[i + n], k)
    ensures RunLength(s, i, k) == n
    decreases n
  {
    if n > 0 {
      RunLengthExact(s, i + 1, k, n - 1);
    }
  }

  /** One match of the pattern: the keyword, `gap` whitespace characters,
      the table identifier (group 1), and the single whitespace character
      that ends the match. */
  datatype Match = Match(gap: nat, ident: string) {
    /** The number of characters the match consumes. */
    function Length(): nat {
      4 + gap + |ident| + 1
    }
  }

  /** The pattern matches at position `i` of `s` with `k` whitespace
      characters after the keyword and an identifier of `n` characters. */
  ghost predicate MatchesWith(s: string, i: nat, k: nat, n: nat) {
    && i + 4 + k + n < |s|
    && IsFromKeyword(s, i)
    && 1 <= k && (forall j :: i + 4 <= j < i + 4 + k ==> IsSpace(s[j]))
    && 1 <= n && (forall j :: i + 4 + k <= j < i + 4 + k + n ==> IsIdentChar(s[j]))
    && IsSpace(s[i + 4 + k + n])
  }

  /** The match of the pattern anchored at position `i` of `s`, if there is one. */
  function MatchAt(s: string, i: nat): (r: Option<Match>)
    requires i <= |s|
    ensures r.Some? ==> i + r.value.Length() <= |s|
  {
    if |s| < i + 4 || !IsFromKeyword(s, i) then None
    else
      var k := RunLength(s, i + 4, Whitespace);
      var n := RunLength(s, i + 4 + k, TableName);
      if k == 0 || n == 0 || i + 4 + k + n >= |s| || !IsSpace(s[i + 4 + k + n]) then None
      else Some(Match(k, s[i + 4 + k .. i + 4 + k + n]))
  }

  /** A match MatchAt reports is a match of the pattern, and its identifier
      is the text between the whitespace after the keyword and the final
      whitespace character. */
  lemma MatchAtSound(s: string, i: nat)
    requires i <= |s| && MatchAt(s, i).Some?
    ensures MatchesWith(s, i, MatchAt(s, i).value.gap, |MatchAt(s, i).value.ident|)
    ensures var m := MatchAt(s, i).value;
            m.ident == s[i + 4 + m.gap .. i + 4 + m.gap + |m.ident|]
  {
    RunLengthMaximal(s, i + 4, Whitespace);
    RunLengthMaximal(s, i + 4 + RunLength(s, i + 4, Whitespace), TableName);
  }

  /** Whatever way the pattern matches at position `i`, MatchAt finds it:
      the regular expression has at most one match at a position, and
      backtracking over `\s+` and `[\w\._]+` never yields a second one. */
  lemma MatchAtComplete(s: string, i: nat, k: nat, n: nat)
    requires MatchesWith(s, i, k, n)
    ensures MatchAt(s, i) == Some(Match(k, s[i + 4 + k .. i + 4 + k + n]))
  {
    RunLengthExact(s, i + 4, Whitespace, k);
    RunLengthExact(s, i + 4 + k, TableName, n);
  }

  /** A match depends only on the characters it consumes: the same
      characters at position `j` of another text match the same way. */
  lemma MatchAtLocal(s: string, i: nat, t: string, j: nat)
    requires i <= |s| && MatchAt(s, i).Some?
    requires j + MatchAt(s, i).value.Length() <= |t|
    requires forall p :: j <= p < j + MatchAt(s, i).value.Length() ==> t[p] == s[p - j + i]
    ensures MatchAt(t, j) == MatchAt(s, i)
  {
    var m := MatchAt(s, i).value;
    var k, n := m.gap, |m.ident|;
    MatchAtSound(s, i);
    assert t[j] == s[i] && t[j + 1] == s[i + 1] && t[j + 2] == s[i + 2] && t[j + 3] == s[i + 3];
    assert t[j + 4 + k + n] == s[i + 4 + k + n];
    assert MatchesWith(t, j, k, n);
    MatchAtComplete(t, j, k, n);
    assert t[j + 4 + k .. j + 4 + k + n] == s[i + 4 + k .. i + 4 + k + n];
  }

  /** The text that replaces one match: the keyword in lower case, the
      identifier kept verbatim, then the clause, each followed by one space. */
  function Replacement(ident: string, clause: string): string {
    "from " + ident + " " + clause + " "
  }

  /** The substitution from position `i` on: where a match starts it is
      replaced and the scan resumes after the whitespace character the match
      consumed; elsewhere one character is copied. */
  function RewriteFrom(q: string, clause: string, i: nat): string
    requires i <= |q|
    decreases |q| - i
  {
    if i == |q| then ""
    else
      match MatchAt(q, i)
      case Some(m) => Replacement(m.ident, clause) + RewriteFrom(q, clause, i + m.Length())
      case None => [q[i]] + RewriteFrom(q, clause, i + 1)
  }

  /** `modify_from_clause_for_timetravel`: the substitution over the whole
      query. The clause must hold no backslash, which the substitution
      template would reinterpret. */
  function ModifyFromClause(query: string, clause: string): string
    requires '\\' !in clause
  {
    RewriteFrom(query, clause, 0)
  }

  /** One step of the scan at a position where a match starts. */
  lemma RewriteStep(q: string, clause: string, i: nat, m: Match)
    requires i < |q| && MatchAt(q, i) == Some(m)
    ensures RewriteFrom(q, clause, i) == Replacement(m.ident, clause) + RewriteFrom(q, clause, i + m.Length())
  {
    assert MatchAt(q, i).value == m;
    assert RewriteFrom(q, clause, i)
           == Replacement(MatchAt(q, i).value.ident, clause) + RewriteFrom(q, clause, i + MatchAt(q, i).value.Length());
  }

  /** One step of the scan at a position where no match starts: the
      character there is copied, and no match position is recorded. */
  lemma RewriteSkip(q: string, clause: string, i: nat)
    requires i < |q| && MatchAt(q, i).None?
    ensures RewriteFrom(q, clause, i) == [q[i]] + RewriteFrom(q, clause, i + 1)
    ensures MatchPositions(q, i) == MatchPositions(q, i + 1)
  {
  }

  /** Where no match starts between `j` and `i`, the scan copies those
      characters unchanged. */
  lemma {:induction false} CopiedUpTo(q: string, clause: string, j: nat, i: nat)
    requires j <= i <= |q|
    requires forall p :: j <= p < i ==> MatchAt(q, p).None?
    ensures RewriteFrom(q, clause, j) == q[j..i] + RewriteFrom(q, clause, i)
    decreases i - j
  {
    if j < i {
      CopiedUpTo(q, clause, j + 1, i);
      RewriteSkip(q, clause, j);
      ConcatAssoc([q[j]], q[j + 1..i], RewriteFrom(q, clause, i));
      assert [q[j]] + q[j + 1..i] == q[j..i];
    }
  }

  /** A query in which the pattern matches nowhere is returned exactly as it
      was: the silent pass-through when nothing in it matches the pattern. */
  lemma NoMatchUnchanged(q: string, clause: string)
    requires '\\' !in clause
    requires forall p :: 0 <= p <= |q| ==> MatchAt(q, p).None?
    ensures ModifyFromClause(q, clause) == q
  {
    CopiedUpTo(q, clause, 0, |q|);
    assert q[0..|q|] == q;
  }

  /** The scan finds the leftmost match first: everything before it is copied
      unchanged, the match is replaced, and scanning resumes right after the
      match, so a match overlapping this one is never rewritten. */
  lemma RewriteAtLeftmostMatch(q: string, clause: string, i: nat, m: Match)
    requires '\\' !in clause
    requires i < |q| && MatchAt(q, i) == Some(m)
    requires forall p :: 0 <= p < i ==> MatchAt(q, p).None?
    ensures i + m.Length() <= |q|
    ensures ModifyFromClause(q, clause) ==
            q[..i] + Replacement(m.ident, clause) + RewriteFrom(q, clause, i + m.Length())
  {
    CopiedUpTo(q, clause, 0, i);
    assert q[0..i] == q[..i];
    RewriteStep(q, clause, i, m);
    ConcatAssoc(q[..i], Replacement(m.ident, clause), RewriteFrom(q, clause, i + m.Length()));
  }

  /** Concatenation is associative. */
  lemma ConcatAssoc(a: string, b: string, c: string)
    ensures a + (b + c) == a + b + c
  {
  }

  /** A query with exactly one match: the match is replaced and every other
      character is as in the input. */
  lemma SingleMatch(q: string, clause: string, i: nat, m: Match)
    requires '\\' !in clause
    requires i < |q| && MatchAt(q, i) == Some(m)
    requires forall p :: 0 <= p < i ==> MatchAt(q, p).None?
    requires forall p :: i + m.Length() <= p <= |q| ==> MatchAt(q, p).None?
    ensures i + m.Length() <= |q|
    ensures ModifyFromClause(q, clause) == q[..i] + Replacement(m.ident, clause) + q[i + m.Length()..]
  {
    RewriteAtLeftmostMatch(q, clause, i, m);
    CopiedUpTo(q, clause, i + m.Length(), |q|);
  }

  /** A position whose character is not `f` or `F` starts no match. */
  lemma NoMatchWithoutF(s: string, i: nat)
    requires i < |s| && !IsF(s[i])
    ensures MatchAt(s, i).None?
  {
  }

  /** The positions where the scan rewrites a match, from position `i` on. */
  function MatchPositions(q: string, i: nat): seq<nat>
    requires i <= |q|
    decreases |q| - i
  {
    if i == |q| then []
    else
      match MatchAt(q, i)
      case Some(m) => [i] + MatchPositions(q, i + m.Length())
      case None => MatchPositions(q, i + 1)
  }

  /** `ps` lists the leftmost non-overlapping matches of `q` from position
      `from` on: the first is the first position at or after `from` where a
      match starts, and each later one is the first match start at or after
      the end of the match before it. */
  ghost predicate LeftToRight(q: string, ps: seq<nat>, from: nat)
    decreases |ps|
  {
    if ps == [] then forall p :: from <= p <= |q| ==> MatchAt(q, p).None?
    else
      && from <= ps[0] < |q| && MatchAt(q, ps[0]).Some?
      && (forall p :: from <= p < ps[0] ==> MatchAt(q, p).None?)
      && LeftToRight(q, ps[1..], ps[0] + MatchAt(q, ps[0]).value.Length())
  }

  /** The positions the scan rewrites are the leftmost non-overlapping
      matches: each holds a match, each starts after the previous match has
      ended, and no match starts in the text between them that the scan
      skips. */
  lemma {:induction false} MatchPositionsLeftToRight(q: string, i: nat)
    requires i <= |q|
    ensures LeftToRight(q, MatchPositions(q, i), i)
    decreases |q| - i
  {
    if i < |q| {
      match MatchAt(q, i)
      case Some(m) =>
        MatchPositionsLeftToRight(q, i + m.Length());
        assert MatchPositions(q, i)[1..] == MatchPositions(q, i + m.Length());
      case None =>
        MatchPositionsLeftToRight(q, i + 1);
        RewriteSkip(q, "", i);
    }
  }

  /** The output of the substitution put together from a list of match
      positions: the text before each match copied, each match replaced by
      its replacement, and the text after the last match copied. */
  ghost function Spliced(q: string, ps: seq<nat>, clause: string, from: nat): string
    requires from <= |q| && LeftToRight(q, ps, from)
    decreases |ps|
  {
    if ps == [] then q[from..]
    else
      var m := MatchAt(q, ps[0]).value;
      q[from..ps[0]] + Replacement(m.ident, clause) + Spliced(q, ps[1..], clause, ps[0] + m.Length())
  }

  /** The substitution is the splice of the leftmost non-overlapping
      matches: every match, however many there are, receives the same
      clause, and all text outside the matches is copied unchanged. */
  lemma {:induction false} RewriteIsSpliced(q: string, ps: seq<nat>, clause: string, from: nat)
    requires from <= |q| && LeftToRight(q, ps, from)
    ensures RewriteFrom(q, clause, from) == Spliced(q, ps, clause, from)
    decreases |ps|
  {
    if ps == [] {
      SplicedAtEnd(q, clause, from);
    } else {
      RewriteIsSpliced(q, ps[1..], clause, ps[0] + MatchAt(q, ps[0]).value.Length());
      SplicedAtMatch(q, ps, clause, from);
    }
  }

  /** With no match start from `from` on, the rest of the query is copied. */
  lemma SplicedAtEnd(q: string, clause: string, from: nat)
    requires from <= |q| && LeftToRight(q, [], from)
    ensures RewriteFrom(q, clause, from) == Spliced(q, [], clause, from)
  {
    CopiedUpTo(q, clause, from, |q|);
    assert q[from..|q|] + "" == q[from..];
  }

  /** Text without a match start is copied up to the next match, which is
      replaced, and the rest is the splice of the remaining positions. The
      terms are those of the body of Spliced, so that both sides meet. */
  lemma SplicedAtMatch(q: string, ps: seq<nat>, clause: string, from: nat)
    requires from <= |q| && LeftToRight(q, ps, from) && ps != []
    requires RewriteFrom(q, clause, ps[0] + MatchAt(q, ps[0]).value.Length())
             == Spliced(q, ps[1..], clause, ps[0] + MatchAt(q, ps[0]).value.Length())
    ensures RewriteFrom(q, clause, from) == Spliced(q, ps, clause, from)
  {
    CopiedUpTo(q, clause, from, ps[0]);
    RewriteStep(q, clause, ps[0], MatchAt(q, ps[0]).value);
    ConcatAssoc(q[from..ps[0]], Replacement(MatchAt(q, ps[0]).value.ident, clause),
                RewriteFrom(q, clause, ps[0] + MatchAt(q, ps[0]).value.Length()));
  }

  /** `modify_from_clause_for_timetravel` over the whole query: the splice
      of the match positions the scan finds. */
  lemma ModifyFromClauseSplices(q: string, clause: string)
    requires '\\' !in clause
    ensures LeftToRight(q, MatchPositions(q, 0), 0)
    ensures ModifyFromClause(q, clause) == Spliced(q, MatchPositions(q, 0), clause, 0)
  {
    MatchPositionsLeftToRight(q, 0);
    RewriteIsSpliced(q, MatchPositions(q, 0), clause, 0);
  }

  /** The leftmost non-overlapping matches are determined by the query:
      any list of them is the list of positions the scan rewrites. */
  lemma {:induction false} LeftToRightUnique(q: string, ps: seq<nat>, from: nat)
    requires from <= |q| && LeftToRight(q, ps, from)
    ensures ps == MatchPositions(q, from)
    decreases |q| - from
  {
    if from < |q| {
      match MatchAt(q, from)
      case Some(m) =>
        assert ps != [] && ps[0] == from;
        LeftToRightUnique(q, ps[1..], from + m.Length());
        PositionRecorded(q, ps, from, m);
      case None =>
        RewriteSkip(q, "", from);
        LeftToRightSkip(q, ps, from);
        LeftToRightUnique(q, ps, from + 1);
    }
  }

  /** A match start is recorded, and the scan resumes after the match. */
  lemma PositionRecorded(q: string, ps: seq<nat>, i: nat, m: Match)
    requires i < |q| && MatchAt(q, i) == Some(m)
    requires ps != [] && ps[0] == i && ps[1..] == MatchPositions(q, i + m.Length())
    ensures ps == MatchPositions(q, i)
  {
    assert MatchAt(q, i).value == m;
    assert MatchPositions(q, i) == [i] + MatchPositions(q, i + MatchAt(q, i).value.Length());
    assert ps == [i] + ps[1..];
  }

  /** A position where no match starts can be dropped from the front of
      the text the leftmost matches are taken from. */
  lemma LeftToRightSkip(q: string, ps: seq<nat>, from: nat)
    requires from < |q| && MatchAt(q, from).None? && LeftToRight(q, ps, from)
    ensures LeftToRight(q, ps, from + 1)
  {
  }


  /** Every match receives the same clause: with N matches, the output is N
      clause lengths longer than with an empty clause. */
  lemma {:induction false} ClauseAddedPerMatch(q: string, clause: string, i: nat)
    requires i <= |q|
    ensures |RewriteFrom(q, clause, i)| == |RewriteFrom(q, "", i)| + |MatchPositions(q, i)| * |clause|
    decreases |q| - i
  {
    if i < |q| {
      if MatchAt(q, i).Some? {
        ClauseAddedPerMatch(q, clause, i + MatchAt(q, i).value.Length());
        ClauseAddedAtMatch(q, clause, i, MatchAt(q, i).value);
      } else {
        ClauseAddedPerMatch(q, clause, i + 1);
        RewriteSkip(q, clause, i);
        RewriteSkip(q, "", i);
      }
    }
  }

  /** One step of ClauseAddedPerMatch at a match: one more clause. */
  lemma ClauseAddedAtMatch(q: string, clause: string, i: nat, m: Match)
    requires i < |q| && MatchAt(q, i) == Some(m)
    requires var j := i + m.Length();
             |RewriteFrom(q, clause, j)| == |RewriteFrom(q, "", j)| + |MatchPositions(q, j)| * |clause|
    ensures |RewriteFrom(q, clause, i)| == |RewriteFrom(q, "", i)| + |MatchPositions(q, i)| * |clause|
  {
    var j := i + m.Length();
    StepLength(q, clause, i, m);
    StepLength(q, "", i, m);
    OneMoreClause(|RewriteFrom(q, clause, i)|, |RewriteFrom(q, "", i)|,
                  |RewriteFrom(q, clause, j)|, |RewriteFrom(q, "", j)|,
                  |MatchPositions(q, i)|, |MatchPositions(q, j)|, |clause|, 7 + |m.ident|);
  }

  /** The lengths after one replaced match: the replacement adds seven
      characters, the identifier and the clause, and one match position. */
  lemma StepLength(q: string, clause: string, i: nat, m: Match)
    requires i < |q| && MatchAt(q, i) == Some(m)
    ensures |RewriteFrom(q, clause, i)| == 7 + |m.ident| + |clause| + |RewriteFrom(q, clause, i + m.Length())|
    ensures |MatchPositions(q, i)| == 1 + |MatchPositions(q, i + m.Length())|
  {
    RewriteStep(q, clause, i, m);
  }

  /** The arithmetic of one more clause in the output. */
  lemma OneMoreClause(a: int, a0: int, b: int, b0: int, n: int, n0: int, c: int, r: int)
    requires b == b0 + n0 * c && a == r + c + b && a0 == r + b0 && n == n0 + 1
    ensures a == a0 + n * c
  {
  }

  /** `from` in any letter case, any run of whitespace, an identifier and
      one whitespace character form one match of the pattern. */
  lemma FromClauseMatches(kw: string, gap: string, ident: string, sep: char)
    requires |kw| == 4 && IsFromKeyword(kw, 0)
    requires |gap| > 0 && forall j :: 0 <= j < |gap| ==> IsSpace(gap[j])
    requires |ident| > 0 && forall j :: 0 <= j < |ident| ==> IsIdentChar(ident[j])
    requires IsSpace(sep)
    ensures MatchAt(kw + gap + ident + [sep], 0) == Some(Match(|gap|, ident))
  {
    var s := kw + gap + ident + [sep];
    var k, n := |gap|, |ident|;
    assert s[0] == kw[0] && s[1] == kw[1] && s[2] == kw[2] && s[3] == kw[3];
    forall p | 4 <= p < 4 + k ensures IsSpace(s[p]) {
      assert s[p] == gap[p - 4];
    }
    forall p | 4 + k <= p < 4 + k + n ensures IsIdentChar(s[p]) {
      assert s[p] == ident[p - 4 - k];
    }
    assert s[4 + k + n] == sep;
    MatchAtComplete(s, 0, k, n);
    assert s[4 + k .. 4 + k + n] == ident;
  }

  /** A query with one match of the pattern and no other match start: the
      keyword becomes lower case, the whitespace around the identifier
      becomes one space each, the clause goes right after the identifier,
      and all other text is unchanged. */
  lemma QualifiesSingleTable(pre: string, t: string, post: string, clause: string)
    requires '\\' !in clause
    requires MatchAt(t, 0).Some? && MatchAt(t, 0).value.Length() == |t|
    requires forall p :: 0 <= p < |pre| ==> MatchAt(pre + t + post, p).None?
    requires forall p :: 0 <= p <= |post| ==> MatchAt(post, p).None?
    ensures ModifyFromClause(pre + t + post, clause)
            == pre + Replacement(MatchAt(t, 0).value.ident, clause) + post
  {
    var q := pre + t + post;
    var m := MatchAt(t, 0).value;
    var e := |pre| + |t|;
    assert q[..|pre|] == pre;
    assert q[e..] == post;
    NoMatchInSuffix(q, e);
    MatchAtLocal(t, 0, q, |pre|);
    SingleMatch(q, clause, |pre|, m);
  }

  /** Where no match starts in the text after position `e`, none starts
      there in the whole text either. */
  lemma NoMatchInSuffix(q: string, e: nat)
    requires e <= |q|
    requires forall p :: 0 <= p <= |q| - e ==> MatchAt(q[e..], p).None?
    ensures forall p :: e <= p <= |q| ==> MatchAt(q, p).None?
  {
    var post := q[e..];
    forall p | e <= p <= |q| ensures MatchAt(q, p).None? {
      if MatchAt(q, p).Some? {
        MatchAtLocal(q, p, post, p - e);
        assert false;
      }
    }
  }

  /** Text without the letter `f` in either case holds no match. */
  lemma NoMatchInText(s: string)
    requires forall j :: 0 <= j < |s| ==> !IsF(s[j])
    ensures forall p :: 0 <= p <= |s| ==> MatchAt(s, p).None?
  {
    forall p | 0 <= p < |s| ensures MatchAt(s, p).None? {
      NoMatchWithoutF(s, p);
    }
  }

  /** A FROM clause naming a one-character table, between text without the
      letter `f`: the clause goes right after the table name. */
  lemma OneLetterTable(pre: string, name: char, post: string, clause: string)
    requires '\\' !in clause && IsIdentChar(name)
    requires forall j :: 0 <= j < |pre| ==> !IsF(pre[j])
    requires forall j :: 0 <= j < |post| ==> !IsF(post[j])
    ensures ModifyFromClause(pre + ("from " + [name] + " ") + post, clause)
            == pre + ("from " + [name] + " " + clause + " ") + post
  {
    var t := "from " + [name] + " ";
    FromClauseMatches("from", " ", [name], ' ');
    assert "from" + " " + [name] + [' '] == t;
    var q := pre + t + post;
    forall p | 0 <= p < |pre| ensures MatchAt(q, p).None? {
      assert q[p] == pre[p];
      NoMatchWithoutF(q, p);
    }
    NoMatchInText(post);
    QualifiesSingleTable(pre, t, post, clause);
  }

  /** Regrouping a text of five pieces. */
  lemma Regroup(a: string, b: string, c: string, d: string, e: string)
    ensures a + (b + c + d) + e == (a + b) + c + (d + e)
  {
  }

  /** A query with its FROM clause in the middle: in `select * from T where
      x=1` the clause goes right after the table name. */
  lemma TableInMidQuery(clause: string)
    requires '\\' !in clause
    ensures ModifyFromClause("select * from T where x=1", clause)
            == "select * from T " + clause + " where x=1"
  {
    OneLetterTable("select * ", 'T', "where x=1", clause);
    ExampleQueryText();
    Regroup("select * ", "from " + ['T'] + " ", clause, " ", "where x=1");
  }

  /** The query and the start of the output of TableInMidQuery, as
      pieces. */
  lemma ExampleQueryText()
    ensures "select * " + ("from " + ['T'] + " ") + "where x=1" == "select * from T where x=1"
    ensures "select * " + ("from " + ['T'] + " ") == "select * from T "
    ensures " " + "where x=1" == " where x=1"
  {
  }

  /** Only the table right after `from` is qualified: in `select * from A
      join B on x` the clause goes after `A`, and the joined table `B` is
      read as it is now. */
  lemma JoinedTableNotQualified(clause: string)
    requires '\\' !in clause
    ensures ModifyFromClause("select * from A join B on x", clause)
            == "select * from A " + clause + " join B on x"
  {
    OneLetterTable("select * ", 'A', "join B on x", clause);
    JoinQueryText();
    Regroup("select * ", "from " + ['A'] + " ", clause, " ", "join B on x");
  }

  /** The query and the start of the output of JoinedTableNotQualified, as
      pieces. */
  lemma JoinQueryText()
    ensures "select * " + ("from " + ['A'] + " ") + "join B on x" == "select * from A join B on x"
    ensures "select * " + ("from " + ['A'] + " ") == "select * from A "
    ensures " " + "join B on x" == " join B on x"
  {
  }

  /** The pattern knows nothing about SQL: in `select valid_from as x from T`
      it matches the `from` at the end of the column name `valid_from`, so the
      clause goes after the alias keyword `as`, and the table `T`, which ends
      the query, is not qualified. */
  lemma MatchInsideColumnName(clause: string)
    requires '\\' !in clause
    ensures ModifyFromClause("select valid_from as x from T", clause)
            == "select valid_from as " + clause + " x from T"
  {
    var pre, t, post := "select valid_", "from as ", "x from T";
    FromClauseMatches("from", " ", "as", ' ');
    assert "from" + " " + "as" + [' '] == t;
    var q := pre + t + post;
    forall p | 0 <= p < |pre| ensures MatchAt(q, p).None? {
      assert q[p] == pre[p];
      NoMatchWithoutF(q, p);
    }
    forall p | 0 <= p <= |post| ensures MatchAt(post, p).None? {
      if p == 2 {
        IdentifierWithoutTrailingSpace(post, 2, 1, 1);
      } else if p < |post| {
        NoMatchWithoutF(post, p);
      }
    }
    QualifiesSingleTable(pre, t, post, clause);
    AliasQueryText();
    Regroup(pre, "from " + "as" + " ", clause, " ", post);
  }

  /** The query and the start of the output of MatchInsideColumnName, as
      pieces. */
  lemma AliasQueryText()
    ensures "select valid_" + "from as " + "x from T" == "select valid_from as x from T"
    ensures "select valid_" + ("from " + "as" + " ") == "select valid_from as "
    ensures " " + "x from T" == " x from T"
  {
  }

  /** An identifier not followed by whitespace is left alone: at the end of
      the query, or followed directly by another character such as a comma
      or a parenthesis, the pattern does not match. */
  lemma IdentifierWithoutTrailingSpace(s: string, i: nat, k: nat, n: nat)
    requires i + 4 + k + n <= |s|
    requires forall j :: i + 4 <= j < i + 4 + k ==> IsSpace(s[j])
    requires forall j :: i + 4 + k <= j < i + 4 + k + n ==> IsIdentChar(s[j])
    requires i + 4 + k + n == |s| || (!IsSpace(s[i + 4 + k + n]) && !IsIdentChar(s[i + 4 + k + n]))
    ensures MatchAt(s, i).None?
  {
    RunLengthExact(s, i + 4, Whitespace, k);
    RunLengthExact(s, i + 4 + k, TableName, n);
  }

  /** The query of the source's usage examples, `SELECT * FROM my_table`,
      ends with the table name: it is sent without any clause. */
  lemma TableAtEndNotQualified(clause: string)
    requires '\\' !in clause
    ensures ModifyFromClause("SELECT * FROM my_table", clause) == "SELECT * FROM my_table"
  {
    var pre, t := "SELECT * ", "FROM my_table";
    var s := pre + t;
    assert s == "SELECT * FROM my_table";
    forall p | 0 <= p <= |s| ensures MatchAt(s, p).None? {
      if p < |pre| {
        assert s[p] == pre[p];
        NoMatchWithoutF(s, p);
      } else if p == |pre| {
        IdentifierWithoutTrailingSpace(s, p, 1, 8);
      } else if p < |s| {
        assert s[p] == t[p - |pre|];
        NoMatchWithoutF(s, p);
      }
    }
    NoMatchUnchanged(s, clause);
  }
}
