/** The first step of `render`: before the Markdown reaches a backend, a
    leading document-type declaration is cut off with the regular expression
    `^\s*<!doctype(\s+.*)?>\s*` (case-insensitive, anchored at the start, no
    global flag).

    `DoctypeMatch` computes the match the leftmost, greedy, backtracking regular
    expression engine finds; `InDoctypeLanguage` is the set of strings the
    pattern describes. The lemmas prove that the match is in the language
    (soundness), that a match exists whenever some prefix is in the language
    (completeness), and that both whitespace runs are taken greedily. */
module Doctype {
  import opened Wrappers
  import opened Html

  const Keyword: string := "<!doctype"

  /** The end of the maximal whitespace run that starts at `i`. */
  function SpaceRunEnd(s: string, i: nat): (j: nat)
    requires i <= |s|
    ensures i <= j <= |s|
    ensures forall k :: i <= k < j ==> IsWhitespace(s[k])
    ensures j == |s| || !IsWhitespace(s[j])
    decreases |s| - i
  {
    if i < |s| && IsWhitespace(s[i]) then SpaceRunEnd(s, i + 1) else i
  }

  /** The end of the run of characters other than line terminators that starts
      at `i`: how far `.*` can reach. */
  function LineEnd(s: string, i: nat): (j: nat)
    requires i <= |s|
    ensures i <= j <= |s|
    ensures forall k :: i <= k < j ==> !IsLineTerminator(s[k])
    ensures j == |s| || IsLineTerminator(s[j])
    decreases |s| - i
  {
    if i < |s| && !IsLineTerminator(s[i]) then LineEnd(s, i + 1) else i
  }

  /** The last `>` in s[lo..hi), if any. */
  function LastCloseIn(s: string, lo: nat, hi: nat): (r: Option<nat>)
    requires lo <= hi <= |s|
    ensures r.Some? ==> lo <= r.value < hi && s[r.value] == '>' &&
                        forall k :: r.value < k < hi ==> s[k] != '>'
    ensures r.None? ==> forall k :: lo <= k < hi ==> s[k] != '>'
    decreases hi
  {
    if hi == lo then None
    else if s[hi - 1] == '>' then Some(hi - 1)
    else LastCloseIn(s, lo, hi - 1)
  }

  /** The length of the prefix of `s` the pattern matches, or None.
      After the keyword, either `>` follows at once (the optional group is
      skipped), or whitespace follows and the group takes all of it and then
      `.*` runs to the last `>` before the next line terminator; giving back
      whitespace never helps, since `>` is not whitespace. */
  function DoctypeMatch(s: string): (r: Option<nat>)
    ensures r.Some? ==> |Keyword| < r.value <= |s|
  {
    var p := SpaceRunEnd(s, 0);
    if !StartsWithIgnoreCase(s[p..], Keyword) then None
    else MatchAfterKeyword(s, p + |Keyword|)
  }

  /** The rest of the match once the keyword ends at `q`. */
  function MatchAfterKeyword(s: string, q: nat): (r: Option<nat>)
    requires q <= |s|
    ensures r.Some? ==> q < r.value <= |s|
  {
    if q < |s| && s[q] == '>' then Some(SpaceRunEnd(s, q + 1))
    else if q < |s| && IsWhitespace(s[q]) then
      var w := SpaceRunEnd(s, q);
      match LastCloseIn(s, w, LineEnd(s, w))
      case None => None
      case Some(m) => Some(SpaceRunEnd(s, m + 1))
    else None
  }

  /** The text handed to the backend. */
  function StripDoctype(text: string): (r: string)
    ensures |r| <= |text| && r == text[|text| - |r|..]
  {
    match DoctypeMatch(text)
    case None => text
    case Some(n) => text[n..]
  }

  predicate AllWhitespace(s: string)
  {
    forall k :: 0 <= k < |s| ==> IsWhitespace(s[k])
  }

  predicate NoLineTerminator(s: string)
  {
    forall k :: 0 <= k < |s| ==> !IsLineTerminator(s[k])
  }

  /** `g` splits after `v` characters into one or more whitespace characters
      (`\s+`) and a run without line terminators (`.*`). */
  predicate GroupSplit(g: string, v: nat)
  {
    1 <= v <= |g| && AllWhitespace(g[..v]) && NoLineTerminator(g[v..])
  }

  /** `g` is something the optional group `(\s+.*)?` can match. */
  ghost predicate InGroupLanguage(g: string)
  {
    g == [] || exists v: nat :: GroupSplit(g, v)
  }

  /** `p` splits as: whitespace s[..i], the keyword in any ASCII case, a group
      p[i + 9..m], `>` at m, whitespace after it. */
  ghost predicate DoctypeShape(p: string, i: nat, m: nat)
  {
    i + |Keyword| <= m < |p| &&
    AllWhitespace(p[..i]) &&
    StartsWithIgnoreCase(p[i..], Keyword) &&
    InGroupLanguage(p[i + |Keyword|..m]) &&
    p[m] == '>' &&
    AllWhitespace(p[m + 1..])
  }

  /** The strings `^\s*<!doctype(\s+.*)?>\s*` matches in full. */
  ghost predicate InDoctypeLanguage(p: string)
  {
    exists i: nat, m: nat :: DoctypeShape(p, i, m)
  }

  /** The shape of a prefix, read off the whole text. */
  lemma PrefixShape(s: string, n: nat, i: nat, m: nat)
    requires i + |Keyword| <= m < n <= |s|
    requires forall k :: 0 <= k < i ==> IsWhitespace(s[k])
    requires StartsWithIgnoreCase(s[i..], Keyword)
    requires InGroupLanguage(s[i + |Keyword|..m])
    requires s[m] == '>'
    requires forall k :: m < k < n ==> IsWhitespace(s[k])
    ensures DoctypeShape(s[..n], i, m)
  {
    var p := s[..n];
    assert p[..i] == s[..i];
    assert p[i..][..|Keyword|] == s[i..][..|Keyword|];
    assert p[i + |Keyword|..m] == s[i + |Keyword|..m];
    var tail := p[m + 1..];
    forall k | 0 <= k < |tail| ensures IsWhitespace(tail[k]) {
      assert tail[k] == s[m + 1 + k];
    }
  }

  /** What is cut is a prefix in the pattern's language, and the text kept
      does not begin with whitespace (the trailing `\s*` is greedy). */
  lemma DoctypeMatchSound(s: string)
    requires DoctypeMatch(s).Some?
    ensures var n := DoctypeMatch(s).value;
      n <= |s| && InDoctypeLanguage(s[..n]) && (n == |s| || !IsWhitespace(s[n]))
    ensures forall n' :: DoctypeMatch(s).value < n' <= |s| ==> !InDoctypeLanguage(s[..n'])
  {
    DoctypeMatchLongest(s);
    var n := DoctypeMatch(s).value;
    var p := SpaceRunEnd(s, 0);
    var q := p + |Keyword|;
    assert DoctypeMatch(s) == MatchAfterKeyword(s, q);
    var m := MatchClose(s, q);
    PrefixShape(s, n, p, m);
  }

  /** The `>` a match closes at, and the group before it. */
  lemma MatchClose(s: string, q: nat) returns (m: nat)
    requires q <= |s| && MatchAfterKeyword(s, q).Some?
    ensures q <= m < |s| && s[m] == '>' && InGroupLanguage(s[q..m])
    ensures MatchAfterKeyword(s, q) == Some(SpaceRunEnd(s, m + 1))
  {
    if s[q] == '>' {
      m := q;
      assert s[q..m] == [];
    } else {
      var w := SpaceRunEnd(s, q);
      m := LastCloseIn(s, w, LineEnd(s, w)).value;
      var g := s[q..m];
      var spaces, rest := g[..w - q], g[w - q..];
      forall k | 0 <= k < |spaces| ensures IsWhitespace(spaces[k]) {
        assert spaces[k] == s[q + k];
      }
      forall k | 0 <= k < |rest| ensures !IsLineTerminator(rest[k]) {
        assert rest[k] == s[w + k];
      }
      assert GroupSplit(g, w - q);
    }
  }

  /** The shape of a prefix, read back on the whole text. */
  lemma ShapeInText(s: string, n: nat, i: nat, m: nat)
    requires n <= |s| && DoctypeShape(s[..n], i, m)
    ensures i + |Keyword| <= m < n
    ensures forall k :: 0 <= k < i ==> IsWhitespace(s[k])
    ensures StartsWithIgnoreCase(s[i..], Keyword)
    ensures InGroupLanguage(s[i + |Keyword|..m])
    ensures s[m] == '>'
  {
    var p := s[..n];
    var lead := p[..i];
    forall k | 0 <= k < i ensures IsWhitespace(s[k]) {
      assert s[k] == lead[k];
    }
    assert p[i..][..|Keyword|] == s[i..][..|Keyword|];
    assert p[i + |Keyword|..m] == s[i + |Keyword|..m];
  }

  /** A group split, read back on the whole text: whitespace on [q, q + v),
      no line terminator on [q + v, m). */
  lemma GroupInText(s: string, q: nat, m: nat, v: nat)
    requires q <= m <= |s| && GroupSplit(s[q..m], v)
    ensures q + v <= m
    ensures forall k :: q <= k < q + v ==> IsWhitespace(s[k])
    ensures forall k :: q + v <= k < m ==> !IsLineTerminator(s[k])
  {
    var spaces, rest := s[q..m][..v], s[q..m][v..];
    forall k | q <= k < q + v ensures IsWhitespace(s[k]) {
      assert s[k] == spaces[k - q];
    }
    forall k | q + v <= k < m ensures !IsLineTerminator(s[k]) {
      assert s[k] == rest[k - q - v];
    }
  }

  /** Whenever some prefix of `s` is in the pattern's language, the pattern
      matches, so a text is returned unchanged only when it has no such prefix. */
  lemma DoctypeMatchComplete(s: string, n: nat)
    requires n <= |s| && InDoctypeLanguage(s[..n])
    ensures DoctypeMatch(s).Some?
  {
    var i: nat, m: nat :| DoctypeShape(s[..n], i, m);
    ShapeInText(s, n, i, m);
    LeadIsSpaceRun(s, i);
    var q := i + |Keyword|;
    assert DoctypeMatch(s) == MatchAfterKeyword(s, q);
    if m != q {
      var v: nat :| GroupSplit(s[q..m], v);
      GroupInText(s, q, m, v);
      CloseFound(s, q, v, m);
    }
  }

  /** Keyword starts after exactly the leading whitespace run. */
  lemma LeadIsSpaceRun(s: string, i: nat)
    requires i < |s| && forall k :: 0 <= k < i ==> IsWhitespace(s[k])
    requires AsciiLower(s[i]) == '<'
    ensures SpaceRunEnd(s, 0) == i
  {
    assert !IsWhitespace(s[i]);
  }

  /** After whitespace s[q..q + v) and a stretch without line terminators up to
      a `>` at m, the search for the last `>` succeeds. */
  lemma CloseFound(s: string, q: nat, v: nat, m: nat)
    requires 1 <= v && q + v <= m < |s| && s[m] == '>'
    requires forall k :: q <= k < q + v ==> IsWhitespace(s[k])
    requires forall k :: q + v <= k < m ==> !IsLineTerminator(s[k])
    ensures q < |s| && IsWhitespace(s[q]) && s[q] != '>'
    ensures var w := SpaceRunEnd(s, q);
      w <= m && LastCloseIn(s, w, LineEnd(s, w)).Some? && m <= LastCloseIn(s, w, LineEnd(s, w)).value
  {
    var w := SpaceRunEnd(s, q);
    assert q + v <= w;
    var e := LineEnd(s, w);
    assert m < e;
  }

  /** A whitespace run covering [i, j) ends at `j` or later. */
  lemma SpaceRunReaches(s: string, i: nat, j: nat)
    requires i <= j <= |s| && forall k :: i <= k < j ==> IsWhitespace(s[k])
    ensures j <= SpaceRunEnd(s, i)
  {
  }

  /** A prefix of shape whitespace s[..i], keyword, group s[i + 9..m], `>` at
      m, whitespace s[m + 1..n) is at most as long as the match: both
      whitespace runs and `.*` are greedy, and the engine backtracks only as
      far as the last `>` on the line. */
  lemma WithinMatchAt(s: string, n: nat, i: nat, m: nat)
    requires i + |Keyword| <= m < n <= |s|
    requires forall k :: 0 <= k < i ==> IsWhitespace(s[k])
    requires StartsWithIgnoreCase(s[i..], Keyword)
    requires InGroupLanguage(s[i + |Keyword|..m])
    requires s[m] == '>'
    requires forall k :: m < k < n ==> IsWhitespace(s[k])
    ensures DoctypeMatch(s).Some? && n <= DoctypeMatch(s).value
  {
    LeadIsSpaceRun(s, i);
    var q := i + |Keyword|;
    assert DoctypeMatch(s) == MatchAfterKeyword(s, q);
    if m == q {
      SpaceRunReaches(s, q + 1, n);
    } else {
      var v: nat :| GroupSplit(s[q..m], v);
      GroupInText(s, q, m, v);
      GroupWithinMatch(s, q, v, m, n);
    }
  }

  /** The case where the group is present: `.*` reaches the last `>` on the
      line, which is at `m` or beyond. */
  lemma GroupWithinMatch(s: string, q: nat, v: nat, m: nat, n: nat)
    requires 1 <= v && q + v <= m < n <= |s| && s[m] == '>'
    requires forall k :: q <= k < q + v ==> IsWhitespace(s[k])
    requires forall k :: q + v <= k < m ==> !IsLineTerminator(s[k])
    requires forall k :: m < k < n ==> IsWhitespace(s[k])
    ensures MatchAfterKeyword(s, q).Some? && n <= MatchAfterKeyword(s, q).value
  {
    CloseFound(s, q, v, m);
    var w := SpaceRunEnd(s, q);
    var c := LastCloseIn(s, w, LineEnd(s, w)).value;
    if c == m {
      SpaceRunReaches(s, m + 1, n);
    }
  }

  /** Every prefix in the pattern's language is at most as long as the match. */
  lemma LanguagePrefixWithinMatch(s: string, n: nat)
    requires n <= |s|
    ensures InDoctypeLanguage(s[..n]) ==> DoctypeMatch(s).Some? && n <= DoctypeMatch(s).value
  {
    if InDoctypeLanguage(s[..n]) {
      var i: nat, m: nat :| DoctypeShape(s[..n], i, m);
      ShapeInText(s, n, i, m);
      var trailing := s[..n][m + 1..];
      forall k | m < k < n ensures IsWhitespace(s[k]) {
        assert s[k] == trailing[k - m - 1];
      }
      WithinMatchAt(s, n, i, m);
    }
  }

  /** No longer prefix than the one cut is in the pattern's language. */
  lemma DoctypeMatchLongest(s: string)
    requires DoctypeMatch(s).Some?
    ensures forall n' :: DoctypeMatch(s).value < n' <= |s| ==> !InDoctypeLanguage(s[..n'])
  {
    forall n' | DoctypeMatch(s).value < n' <= |s| ensures !InDoctypeLanguage(s[..n']) {
      LanguagePrefixWithinMatch(s, n');
    }
  }

  /** A text that does not start with optional whitespace and `<!doctype` in
      any ASCII case reaches the backend unchanged. */
  lemma NoDoctypeUnchanged(s: string)
    requires !StartsWithIgnoreCase(s[SpaceRunEnd(s, 0)..], Keyword)
    ensures StripDoctype(s) == s
  {
  }

  /** `render` cuts from the text exactly a prefix in the pattern's language,
      leaving a text that does not begin with whitespace, or cuts nothing; it
      cuts nothing only when no prefix is in the language. */
  lemma StripDoctypeCutsDoctypeOnly(s: string)
    ensures var cut := s[..|s| - |StripDoctype(s)|];
      cut == [] || (InDoctypeLanguage(cut) && (StripDoctype(s) == [] || !IsWhitespace(StripDoctype(s)[0])))
    ensures forall n :: |s| - |StripDoctype(s)| < n <= |s| ==> !InDoctypeLanguage(s[..n])
    ensures (forall n :: 0 <= n <= |s| ==> !InDoctypeLanguage(s[..n])) <==> StripDoctype(s) == s
  {
    if DoctypeMatch(s).Some? {
      DoctypeMatchSound(s);
      var n := DoctypeMatch(s).value;
      assert s[..|s| - |StripDoctype(s)|] == s[..n];
    } else {
      forall n | 0 <= n <= |s| ensures !InDoctypeLanguage(s[..n]) {
        if InDoctypeLanguage(s[..n]) {
          DoctypeMatchComplete(s, n);
        }
      }
    }
  }

  /** A text with two `>` on the declaration's line. */
  const TwoCloses: string := "<!doctype a> b> c"

  lemma TwoClosesKeyword()
    ensures SpaceRunEnd(TwoCloses, 0) == 0 && StartsWithIgnoreCase(TwoCloses, Keyword)
  {
    assert TwoCloses[..|Keyword|] == Keyword;
  }

  lemma TwoClosesLine()
    ensures LineEnd(TwoCloses, 10) == 17 && LastCloseIn(TwoCloses, 10, 17) == Some(14)
  {
    assert LineEnd(TwoCloses, 17) == 17;
    assert LineEnd(TwoCloses, 14) == 17;
    assert LastCloseIn(TwoCloses, 10, 15) == Some(14);
  }

  lemma TwoClosesRuns()
    ensures SpaceRunEnd(TwoCloses, 9) == 10 && SpaceRunEnd(TwoCloses, 15) == 16
  {
  }

  /** With two `>` on the line, `.*` runs to the last one: the whole
      declaration-like run up to it is cut, with the whitespace after it. */
  lemma GreedyToLastClose()
    ensures StripDoctype(TwoCloses) == "c"
  {
    TwoClosesKeyword();
    TwoClosesLine();
    TwoClosesRuns();
    assert TwoCloses[0..] == TwoCloses;
    assert DoctypeMatch(TwoCloses) == MatchAfterKeyword(TwoCloses, 9);
  }
}
