/** The source-line to tag-path map that keeps the editor cursor and the preview
    in step: `decodeTag` and `buildLineMap` of the preview view's utilities.

    The builder walks the tokenizer's flat token stream once. For each line a
    visible opening or self-closing token covers, it appends the token's display
    tag together with that tag's occurrence number among the tokens met so far
    at the same nesting level. The occurrence numbers live in one table of
    per-tag counters per level; an opening token at level L starts a fresh
    table for level L + 1.

    `Step`, `Run` and `LineMapOf` are the functional specification; the method
    `BuildLineMap` is the loop of the source, proved equal to it. */
module LineMap {
  import opened Wrappers

  /** The half-open range [start, end) of source lines a token covers. */
  datatype LineRange = LineRange(start: nat, end: nat)

  /** A token of the tokenizer's flat output. `nesting` is 1 for an opening
      token, 0 for a self-closing one and -1 for a closing one; `lines` is the
      token's optional source range. */
  datatype Token = Token(tag: string, nesting: int, level: nat, lines: Option<LineRange>, hidden: bool)

  /** One element of a line's tag path: the display tag and its occurrence
      number among same-tag tokens at the same level. */
  datatype Entry = Entry(tag: string, index: nat)

  /** The line map: line number to the entries recorded for it, in order. */
  type Lines = map<nat, seq<Entry>>

  /** One level's counter table; a tag that is absent has count 0. */
  type TagCounts = map<string, nat>

  /** Counter tables by level; a level that is absent has no table at all. */
  type Counters = map<nat, TagCounts>

  datatype State = State(lineMap: Lines, counters: Counters)

  /** Reading the counter of a level that has no table throws a TypeError. */
  datatype BuildError = UndefinedLevel(level: nat)

  /** The display tag of a token: `math` is shown as `span`, `code` as the
      editor element, and a token without a tag has none. */
  function DecodeTag(tag: string): (r: Option<string>)
    ensures r.None? <==> tag == ""
    ensures r.Some? ==> r.value != ""
    ensures tag == "math" ==> r == Some("span")
    ensures tag == "code" ==> r == Some("atom-text-editor")
    ensures tag != "math" && tag != "code" && tag != "" ==> r == Some(tag)
  {
    if tag == "math" then Some("span")
    else if tag == "code" then Some("atom-text-editor")
    else if tag == "" then None
    else Some(tag)
  }

  /** A display tag decodes to itself, so decoding twice is decoding once. */
  lemma DecodeTagIdempotent(tag: string)
    requires DecodeTag(tag).Some?
    ensures DecodeTag(DecodeTag(tag).value) == DecodeTag(tag)
  {
  }

  /** The counter of `tag` in a table (`tokenTagCount[level][tag] || 0`). */
  function Count(tc: TagCounts, tag: string): nat
  {
    if tag in tc then tc[tag] else 0
  }

  /** The entries recorded so far for one line (none when the line is absent). */
  function EntriesOf(lm: Lines, line: nat): seq<Entry>
  {
    if line in lm then lm[line] else []
  }

  /** A token the builder ignores altogether. */
  predicate Skipped(t: Token)
  {
    t.hidden || t.lines.None? || DecodeTag(t.tag).None?
  }

  /** A token that records entries: visible, with a range, a tag, and opening or self-closing. */
  predicate Records(t: Token)
  {
    !Skipped(t) && (t.nesting == 1 || t.nesting == 0)
  }

  /** A recording token whose range contains `line`. */
  predicate Covers(t: Token, line: nat)
  {
    Records(t) && t.lines.value.start <= line < t.lines.value.end
  }

  /** A token that starts a fresh counter table for `level`. */
  predicate Resets(t: Token, level: nat)
  {
    !Skipped(t) && t.nesting == 1 && t.level + 1 == level
  }

  /** The line numbers in [lo, hi). */
  function LinesIn(lo: nat, hi: nat): (r: set<nat>)
    ensures forall line :: line in r <==> lo <= line < hi
    decreases hi
  {
    if hi <= lo then {} else LinesIn(lo, hi - 1) + {hi - 1}
  }

  /** `lm` with `e` appended to every line in [lo, hi). */
  function AppendToLines(lm: Lines, lo: nat, hi: nat, e: Entry): Lines
  {
    map line | line in lm.Keys + LinesIn(lo, hi) ::
      if lo <= line < hi then EntriesOf(lm, line) + [e] else EntriesOf(lm, line)
  }

  /** The effect of one token on the builder's state. */
  function Step(s: State, t: Token): Result<State, BuildError>
  {
    if Skipped(t) then Success(s)
    else if t.level !in s.counters then Failure(UndefinedLevel(t.level))
    else
      var tag := DecodeTag(t.tag).value;
      var n := Count(s.counters[t.level], tag);
      var lm := if t.nesting == 1 || t.nesting == 0
                then AppendToLines(s.lineMap, t.lines.value.start, t.lines.value.end, Entry(tag, n))
                else s.lineMap;
      var c := if t.nesting == 1 then s.counters[t.level + 1 := map[]] else s.counters;
      Success(State(lm, c[t.level := c[t.level][tag := n + 1]]))
  }

  /** The effect of a token sequence, in order; the first failure stops the walk. */
  function Run(s: State, ts: seq<Token>): Result<State, BuildError>
    decreases |ts|
  {
    if ts == [] then Success(s)
    else
      match Step(s, ts[0])
      case Failure(e) => Failure(e)
      case Success(s1) => Run(s1, ts[1..])
  }

  /** Continue a walk that may already have failed. */
  function Then(r: Result<State, BuildError>, ts: seq<Token>): Result<State, BuildError>
  {
    match r
    case Failure(e) => Failure(e)
    case Success(s) => Run(s, ts)
  }

  /** The starting state: no lines, and an empty counter table for level 0 only. */
  function Init(): State
  {
    State(map[], map[0 := map[]])
  }

  /** The line map of a token stream, or the error the builder throws. */
  function LineMapOf(ts: seq<Token>): Result<Lines, BuildError>
  {
    match Run(Init(), ts)
    case Failure(e) => Failure(e)
    case Success(s) => Success(s.lineMap)
  }

  lemma AppendToLinesExtend(lm: Lines, lo: nat, hi: nat, e: Entry)
    requires lo <= hi
    ensures AppendToLines(lm, lo, hi + 1, e)
         == AppendToLines(lm, lo, hi, e)[hi := EntriesOf(lm, hi) + [e]]
  {
    var a := AppendToLines(lm, lo, hi + 1, e);
    var b := AppendToLines(lm, lo, hi, e)[hi := EntriesOf(lm, hi) + [e]];
    assert a.Keys == b.Keys;
  }

  lemma AppendToLinesEmpty(lm: Lines, lo: nat, hi: nat, e: Entry)
    requires hi <= lo
    ensures AppendToLines(lm, lo, hi, e) == lm
  {
  }

  /** The inner loop of the source: push `e` onto the entry list of each line
      in [lo, hi), creating the list where the line has none. */
  method PushToLines(lm: Lines, lo: nat, hi: nat, e: Entry) returns (r: Lines)
    ensures r == AppendToLines(lm, lo, hi, e)
  {
    r := lm;
    var line := lo;
    while line < hi
      invariant lo <= line && (line <= hi || line == lo)
      invariant r == AppendToLines(lm, lo, line, e)
    {
      AppendToLinesExtend(lm, lo, line, e);
      r := r[line := EntriesOf(r, line) + [e]];
      line := line + 1;
    }
    if hi <= lo {
      AppendToLinesEmpty(lm, lo, hi, e);
      AppendToLinesEmpty(lm, lo, line, e);
    }
  }

  /** The builder loop of the source: one pass over the tokens, inner passes
      over each recording token's lines, and two dictionaries updated in place. */
  method BuildLineMap(tokens: seq<Token>) returns (r: Result<Lines, BuildError>)
    ensures r == LineMapOf(tokens)
  {
    var lineMap: Lines := map[];
    var tokenTagCount: Counters := map[0 := map[]];
    for i := 0 to |tokens|
      invariant Run(Init(), tokens) == Run(State(lineMap, tokenTagCount), tokens[i..])
    {
      var token := tokens[i];
      assert tokens[i..][0] == token && tokens[i..][1..] == tokens[i + 1..];
      if token.hidden || token.lines.None? {
        continue;
      }
      var decoded := DecodeTag(token.tag);
      if decoded.None? {
        continue;
      }
      var tag := decoded.value;
      if token.level !in tokenTagCount {
        return Failure(UndefinedLevel(token.level));
      }
      if token.nesting == 1 || token.nesting == 0 {
        lineMap := PushToLines(lineMap, token.lines.value.start, token.lines.value.end,
                               Entry(tag, Count(tokenTagCount[token.level], tag)));
        if token.nesting == 1 {
          tokenTagCount := tokenTagCount[token.level + 1 := map[]];
        }
      }
      var ttc := Count(tokenTagCount[token.level], tag);
      tokenTagCount := tokenTagCount[token.level := tokenTagCount[token.level][tag := ttc + 1]];
    }
    assert tokens[|tokens|..] == [];
    return Success(lineMap);
  }

  // ---------------------------------------------------------------------------
  // One token

  /** A hidden token, one without a range, or one whose tag decodes to nothing
      leaves the line map and every counter as they were. */
  lemma SkippedTokenChangesNothing(s: State, t: Token)
    requires Skipped(t)
    ensures Step(s, t) == Success(s)
  {
  }

  /** A token that is not skipped fails exactly when its level has no table. */
  lemma StepFailsIff(s: State, t: Token)
    ensures Step(s, t).Failure? <==> !Skipped(t) && t.level !in s.counters
    ensures Step(s, t).Failure? ==> Step(s, t).error == UndefinedLevel(t.level)
  {
  }

  /** An opening or self-closing token appends exactly one entry, holding its
      display tag and the counter value before it, to each line of its range;
      every other line, and every entry already recorded, stays as it was. A
      closing token adds no entry. */
  lemma StepLineEffect(s: State, t: Token, line: nat)
    requires Step(s, t).Success?
    ensures var lm := Step(s, t).value.lineMap;
      (line in lm <==> line in s.lineMap || Covers(t, line)) &&
      EntriesOf(lm, line) == EntriesOf(s.lineMap, line) +
        (if Covers(t, line)
         then [Entry(DecodeTag(t.tag).value, Count(s.counters[t.level], DecodeTag(t.tag).value))]
         else [])
  {
  }

  /** Every token that is not skipped, closing ones included, raises its own
      (level, tag) counter by exactly one; an opening token at level L also
      replaces the table of level L + 1 by an empty one; no other counter and
      no other table changes. */
  lemma StepCounterEffect(s: State, t: Token)
    requires Step(s, t).Success? && !Skipped(t)
    ensures var c := Step(s, t).value.counters;
      var tag := DecodeTag(t.tag).value;
      t.level in c && t.level in s.counters &&
      Count(c[t.level], tag) == Count(s.counters[t.level], tag) + 1 &&
      (forall g :: g != tag ==> Count(c[t.level], g) == Count(s.counters[t.level], g)) &&
      (t.nesting == 1 ==> c[t.level + 1] == map[]) &&
      c.Keys == s.counters.Keys + (if t.nesting == 1 then {t.level + 1} else {}) &&
      (forall l :: l in c && l != t.level && !Resets(t, l) ==> c[l] == s.counters[l])
  {
  }

  // ---------------------------------------------------------------------------
  // Token sequences

  /** Walking `a + b` is walking `a`, then `b` from where `a` stopped. */
  lemma {:induction false} RunAppend(s: State, a: seq<Token>, b: seq<Token>)
    ensures Run(s, a + b) == Then(Run(s, a), b)
    decreases |a|
  {
    if a == [] {
      assert a + b == b;
    } else {
      assert (a + b)[0] == a[0] && (a + b)[1..] == a[1..] + b;
      match Step(s, a[0])
      case Failure(e) =>
      case Success(s1) => RunAppend(s1, a[1..], b);
    }
  }

  /** No tokens, no lines. */
  lemma EmptyInputEmptyMap()
    ensures LineMapOf([]) == Success(map[])
  {
  }

  /** The display tags of the tokens covering `line`, in encounter order: the
      reference for what a line's path holds. */
  function CoveringTags(ts: seq<Token>, line: nat): seq<string>
  {
    if ts == [] then []
    else (if Covers(ts[0], line) then [DecodeTag(ts[0].tag).value] else []) + CoveringTags(ts[1..], line)
  }

  function Tags(es: seq<Entry>): (r: seq<string>)
    ensures |r| == |es|
  {
    seq(|es|, i requires 0 <= i < |es| => es[i].tag)
  }

  lemma TagsAppend(a: seq<Entry>, b: seq<Entry>)
    ensures Tags(a + b) == Tags(a) + Tags(b)
  {
  }

  /** Entries `before`, then `added`, then more: the tags after `before` are
      those of `added` followed by the rest. */
  lemma TagsOfExtension(before: seq<Entry>, added: seq<Entry>, after: seq<Entry>)
    requires before + added <= after
    ensures before <= after
    ensures Tags(after[|before|..]) == Tags(added) + Tags(after[|before + added|..])
  {
    assert after[|before|..] == added + after[|before + added|..];
    TagsAppend(added, after[|before + added|..]);
  }

  /** A walk keeps the entries a line already has and appends one entry per
      covering token, in token order; a line gains a key only when some token
      covers it. */
  lemma {:induction false} RunLineEntries(s: State, ts: seq<Token>, line: nat)
    requires Run(s, ts).Success?
    ensures var before := EntriesOf(s.lineMap, line);
      var after := EntriesOf(Run(s, ts).value.lineMap, line);
      before <= after &&
      Tags(after[|before|..]) == CoveringTags(ts, line) &&
      (line in Run(s, ts).value.lineMap <==> line in s.lineMap || CoveringTags(ts, line) != [])
    decreases |ts|
  {
    if ts != [] {
      var s1 := Step(s, ts[0]).value;
      StepLineEffect(s, ts[0], line);
      RunLineEntries(s1, ts[1..], line);
      assert Run(s, ts) == Run(s1, ts[1..]);
      var before := EntriesOf(s.lineMap, line);
      var added := EntriesOf(s1.lineMap, line)[|before|..];
      assert Tags(added) == (if Covers(ts[0], line) then [DecodeTag(ts[0].tag).value] else []);
      TagsOfExtension(before, added, EntriesOf(Run(s, ts).value.lineMap, line));
    }
  }

  /** The finished line map holds, for each line, exactly one entry per token
      covering it, with that token's display tag, in encounter order; lines no
      token covers are absent. */
  lemma LineMapPaths(ts: seq<Token>, line: nat)
    requires LineMapOf(ts).Success?
    ensures Tags(EntriesOf(LineMapOf(ts).value, line)) == CoveringTags(ts, line)
    ensures line in LineMapOf(ts).value <==> CoveringTags(ts, line) != []
  {
    RunLineEntries(Init(), ts, line);
    assert EntriesOf(Init().lineMap, line) == [];
  }

  lemma {:induction false} CoveringTagFrom(ts: seq<Token>, line: nat, k: nat)
    requires k < |CoveringTags(ts, line)|
    ensures exists t :: t in ts && Covers(t, line) && DecodeTag(t.tag) == Some(CoveringTags(ts, line)[k])
    decreases |ts|
  {
    if Covers(ts[0], line) && k == 0 {
      assert ts[0] in ts;
    } else {
      var k' := if Covers(ts[0], line) then k - 1 else k;
      CoveringTagFrom(ts[1..], line, k');
      var t :| t in ts[1..] && Covers(t, line) && DecodeTag(t.tag) == Some(CoveringTags(ts[1..], line)[k']);
      assert t in ts;
    }
  }

  /** Every entry of a line comes from a visible opening or self-closing token
      whose range [start, end) contains that line. */
  lemma EntryProvenance(ts: seq<Token>, line: nat, k: nat)
    requires LineMapOf(ts).Success? && k < |EntriesOf(LineMapOf(ts).value, line)|
    ensures exists t :: (t in ts && Covers(t, line) &&
      t.lines.value.start <= line < t.lines.value.end &&
      DecodeTag(t.tag) == Some(EntriesOf(LineMapOf(ts).value, line)[k].tag))
  {
    LineMapPaths(ts, line);
    CoveringTagFrom(ts, line, k);
  }

  /** The number of tokens in `ts` that raise the counter of (`level`, `tag`). */
  function Occurrences(ts: seq<Token>, level: nat, tag: string): nat
  {
    if ts == [] then 0
    else (if !Skipped(ts[0]) && ts[0].level == level && DecodeTag(ts[0].tag) == Some(tag) then 1 else 0)
         + Occurrences(ts[1..], level, tag)
  }

  /** No token of `ts` starts a fresh table for `level`. */
  predicate NoReset(ts: seq<Token>, level: nat)
  {
    forall k :: 0 <= k < |ts| ==> !Resets(ts[k], level)
  }

  /** Without a reset of its level, a counter counts: it grows by the number of
      same-level, same-tag tokens walked, closing ones included. */
  lemma {:induction false} RunCountsOccurrences(s: State, ts: seq<Token>, level: nat, tag: string)
    requires Run(s, ts).Success? && level in s.counters && NoReset(ts, level)
    ensures level in Run(s, ts).value.counters
    ensures Count(Run(s, ts).value.counters[level], tag)
         == Count(s.counters[level], tag) + Occurrences(ts, level, tag)
    decreases |ts|
  {
    if ts != [] {
      var t := ts[0];
      var s1 := Step(s, t).value;
      assert !Resets(t, level);
      if !Skipped(t) {
        StepCounterEffect(s, t);
      }
      assert level in s1.counters && Count(s1.counters[level], tag)
        == Count(s.counters[level], tag)
           + (if !Skipped(t) && t.level == level && DecodeTag(t.tag) == Some(tag) then 1 else 0);
      assert NoReset(ts[1..], level) by {
        forall k | 0 <= k < |ts[1..]| ensures !Resets(ts[1..][k], level) {
          assert ts[1..][k] == ts[k + 1];
        }
      }
      RunCountsOccurrences(s1, ts[1..], level, tag);
    }
  }

  /** The value of the (`level`, `tag`) counter just before token `k` is read,
      0 when the walk failed before it or the level has no table. */
  function CounterBefore(ts: seq<Token>, k: nat, level: nat, tag: string): nat
    requires k <= |ts|
  {
    match Run(Init(), ts[..k])
    case Failure(_) => 0
    case Success(s) => if level in s.counters then Count(s.counters[level], tag) else 0
  }

  /** Two same-level tokens with the same display tag, with no reset of that
      level between them, see strictly increasing counter values, hence record
      strictly increasing indices; the later one's value exceeds the earlier
      one's by one plus the matching tokens between them. */
  lemma IndicesStrictlyIncrease(ts: seq<Token>, i: nat, j: nat)
    requires i < j < |ts|
    requires Run(Init(), ts[..j]).Success?
    requires !Skipped(ts[i]) && !Skipped(ts[j])
    requires ts[i].level == ts[j].level && DecodeTag(ts[i].tag) == DecodeTag(ts[j].tag)
    requires NoReset(ts[i + 1..j], ts[i].level)
    ensures var tag := DecodeTag(ts[i].tag).value;
      CounterBefore(ts, j, ts[i].level, tag)
        == CounterBefore(ts, i, ts[i].level, tag) + 1 + Occurrences(ts[i + 1..j], ts[i].level, tag)
    ensures CounterBefore(ts, i, ts[i].level, DecodeTag(ts[i].tag).value)
          < CounterBefore(ts, j, ts[i].level, DecodeTag(ts[i].tag).value)
  {
    var level, tag := ts[i].level, DecodeTag(ts[i].tag).value;
    assert ts[..j] == ts[..i] + ([ts[i]] + ts[i + 1..j]);
    RunAppend(Init(), ts[..i], [ts[i]] + ts[i + 1..j]);
    var si := Run(Init(), ts[..i]).value;
    assert ([ts[i]] + ts[i + 1..j])[0] == ts[i] && ([ts[i]] + ts[i + 1..j])[1..] == ts[i + 1..j];
    var s1 := Step(si, ts[i]).value;
    StepCounterEffect(si, ts[i]);
    RunCountsOccurrences(s1, ts[i + 1..j], level, tag);
  }

  /** A walk that succeeds succeeds on every prefix. */
  lemma PrefixSucceeds(ts: seq<Token>, k: nat)
    requires k <= |ts| && Run(Init(), ts).Success?
    ensures Run(Init(), ts[..k]).Success?
  {
    assert ts[..k] + ts[k..] == ts;
    RunAppend(Init(), ts[..k], ts[k..]);
  }

  /** The state after k + 1 tokens is one step from the state after k. */
  lemma PrefixStep(ts: seq<Token>, k: nat)
    requires k < |ts| && Run(Init(), ts[..k + 1]).Success?
    ensures Run(Init(), ts[..k]).Success?
    ensures Step(Run(Init(), ts[..k]).value, ts[k]) == Run(Init(), ts[..k + 1])
  {
    assert ts[..k + 1] == ts[..k] + [ts[k]];
    RunAppend(Init(), ts[..k], [ts[k]]);
    RunOne(Run(Init(), ts[..k]).value, ts[k]);
  }

  lemma RunOne(s: State, t: Token)
    ensures Run(s, [t]) == Step(s, t)
  {
    assert [t][1..] == [];
  }

  /** What the token at position `k` records for `line`: nothing unless it
      covers the line, else one entry built from that token alone, its display
      tag and the counter value the walk had reached just before it. */
  function CoveringEntry(ts: seq<Token>, line: nat, k: nat): seq<Entry>
    requires k < |ts|
  {
    var tag := DecodeTag(ts[k].tag);
    if Covers(ts[k], line) then [Entry(tag.value, CounterBefore(ts, k, ts[k].level, tag.value))] else []
  }

  /** What the tokens from position `k` on record for `line`, in order. */
  function CoveringEntries(ts: seq<Token>, line: nat, k: nat): seq<Entry>
    requires k <= |ts|
    decreases |ts| - k
  {
    if k == |ts| then [] else CoveringEntry(ts, line, k) + CoveringEntries(ts, line, k + 1)
  }

  /** The token at position `k` appends to `line` exactly its covering entry. */
  lemma CoveringStep(ts: seq<Token>, line: nat, k: nat)
    requires k < |ts| && Run(Init(), ts[..k + 1]).Success?
    ensures Run(Init(), ts[..k]).Success?
    ensures EntriesOf(Run(Init(), ts[..k + 1]).value.lineMap, line)
         == EntriesOf(Run(Init(), ts[..k]).value.lineMap, line) + CoveringEntry(ts, line, k)
  {
    PrefixStep(ts, k);
    var sk := Run(Init(), ts[..k]).value;
    StepLineEffect(sk, ts[k], line);
  }

  /** The entries of `line` after the whole walk are those it had after k
      tokens followed by those the remaining covering tokens record. */
  lemma {:induction false} EntriesFrom(ts: seq<Token>, line: nat, k: nat)
    requires k <= |ts| && Run(Init(), ts).Success?
    ensures Run(Init(), ts[..k]).Success?
    ensures EntriesOf(Run(Init(), ts).value.lineMap, line)
         == EntriesOf(Run(Init(), ts[..k]).value.lineMap, line) + CoveringEntries(ts, line, k)
    decreases |ts| - k
  {
    if k == |ts| {
      assert ts[..k] == ts;
    } else {
      EntriesFrom(ts, line, k + 1);
      CoveringStep(ts, line, k);
      var before := EntriesOf(Run(Init(), ts[..k]).value.lineMap, line);
      var here := CoveringEntry(ts, line, k);
      var rest := CoveringEntries(ts, line, k + 1);
      assert CoveringEntries(ts, line, k) == here + rest;
      assert (before + here) + rest == before + (here + rest);
    }
  }

  /** The finished path of each line is, entry by entry, the display tag of
      the k-th token covering it together with the count of same-level,
      same-tag tokens met before that token since its level's table was last
      started. */
  lemma LineMapEntries(ts: seq<Token>, line: nat)
    requires LineMapOf(ts).Success?
    ensures EntriesOf(LineMapOf(ts).value, line) == CoveringEntries(ts, line, 0)
  {
    EntriesFrom(ts, line, 0);
    assert ts[..0] == [];
  }

  lemma {:induction false} CoveringEntryAt(ts: seq<Token>, line: nat, k: nat, j: nat)
    requires k <= j < |ts| && Covers(ts[j], line)
    ensures var tag := DecodeTag(ts[j].tag).value;
      Entry(tag, CounterBefore(ts, j, ts[j].level, tag)) in CoveringEntries(ts, line, k)
    decreases j - k
  {
    if k < j {
      CoveringEntryAt(ts, line, k + 1, j);
    } else {
      assert CoveringEntry(ts, line, k) <= CoveringEntries(ts, line, k);
    }
  }

  /** Each token covering a line leaves on that line an entry with its
      display tag and the counter value it read. */
  lemma CoveringTokenRecorded(ts: seq<Token>, line: nat, j: nat)
    requires LineMapOf(ts).Success? && j < |ts| && Covers(ts[j], line)
    ensures var tag := DecodeTag(ts[j].tag).value;
      Entry(tag, CounterBefore(ts, j, ts[j].level, tag)) in EntriesOf(LineMapOf(ts).value, line)
  {
    LineMapEntries(ts, line);
    CoveringEntryAt(ts, line, 0, j);
  }

  // ---------------------------------------------------------------------------
  // When the builder throws

  /** The levels that an opening token in `ts` gives a table. */
  function Opened(ts: seq<Token>): set<nat>
  {
    if ts == [] then {}
    else (if !Skipped(ts[0]) && ts[0].nesting == 1 then {ts[0].level + 1} else {}) + Opened(ts[1..])
  }

  lemma {:induction false} OpenedAppend(a: seq<Token>, b: seq<Token>)
    ensures Opened(a + b) == Opened(a) + Opened(b)
    decreases |a|
  {
    if a == [] {
      assert a + b == b;
    } else {
      assert (a + b)[0] == a[0] && (a + b)[1..] == a[1..] + b;
      OpenedAppend(a[1..], b);
    }
  }

  /** Every token of `ts` that is not skipped sits at a level in `levels` or
      one opened by an earlier token of `ts`. */
  predicate LevelsDefined(levels: set<nat>, ts: seq<Token>)
  {
    forall k :: 0 <= k < |ts| && !Skipped(ts[k]) ==> ts[k].level in levels + Opened(ts[..k])
  }

  lemma LevelsDefinedUnfold(levels: set<nat>, ts: seq<Token>)
    requires ts != []
    ensures var added := if !Skipped(ts[0]) && ts[0].nesting == 1 then {ts[0].level + 1} else {};
      LevelsDefined(levels, ts) <==>
        (!Skipped(ts[0]) ==> ts[0].level in levels) && LevelsDefined(levels + added, ts[1..])
  {
    var t, rest := ts[0], ts[1..];
    var added := if !Skipped(t) && t.nesting == 1 then {t.level + 1} else {};
    assert Opened(ts[..1]) == added by {
      assert ts[..1] == [t];
      assert ts[..1][1..] == [];
    }
    forall k | 0 <= k < |rest|
      ensures ts[k + 1] == rest[k] && Opened(ts[..k + 1]) == added + Opened(rest[..k])
    {
      assert ts[..k + 1] == ts[..1] + rest[..k];
      OpenedAppend(ts[..1], rest[..k]);
    }
    assert ts[..0] == [];
    if LevelsDefined(levels, ts) {
      forall k | 0 <= k < |rest| && !Skipped(rest[k])
        ensures rest[k].level in levels + added + Opened(rest[..k])
      {
        assert ts[k + 1] == rest[k];
      }
    }
    if (!Skipped(t) ==> t.level in levels) && LevelsDefined(levels + added, rest) {
      forall k | 0 <= k < |ts| && !Skipped(ts[k])
        ensures ts[k].level in levels + Opened(ts[..k])
      {
        if k > 0 {
          assert ts[k] == rest[k - 1];
        }
      }
    }
  }

  /** A walk succeeds exactly when every token that is not skipped sits at a
      level that has a table when it is read: one present at the start, or one
      an earlier opening token created. On success the levels with a table are
      those of the start plus those the tokens opened. */
  lemma {:induction false} RunSucceedsIff(s: State, ts: seq<Token>)
    ensures Run(s, ts).Success? <==> LevelsDefined(s.counters.Keys, ts)
    ensures Run(s, ts).Success? ==> Run(s, ts).value.counters.Keys == s.counters.Keys + Opened(ts)
    decreases |ts|
  {
    if ts != [] {
      var t, rest := ts[0], ts[1..];
      var added := if !Skipped(t) && t.nesting == 1 then {t.level + 1} else {};
      LevelsDefinedUnfold(s.counters.Keys, ts);
      if Step(s, t).Success? {
        var s1 := Step(s, t).value;
        assert s1.counters.Keys == s.counters.Keys + added by {
          if !Skipped(t) {
            StepCounterEffect(s, t);
          }
        }
        RunSucceedsIff(s1, rest);
      }
    }
  }

  /** The builder succeeds exactly when no visible, tagged, ranged token sits
      at a level above 0 that no earlier such opening token has entered. */
  lemma BuildSucceedsIff(ts: seq<Token>)
    ensures LineMapOf(ts).Success? <==>
      forall k :: 0 <= k < |ts| && !Skipped(ts[k]) ==> ts[k].level == 0 || ts[k].level in Opened(ts[..k])
  {
    RunSucceedsIff(Init(), ts);
    assert Init().counters.Keys == {0};
  }
}
