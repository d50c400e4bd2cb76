/** The parsed HTML document as the renderer's post-processing sees it, and the
    character classes of JavaScript regular expressions it relies on. */
module Html {
  import opened Wrappers

  /** One element of the document, in document order. `depth` is its nesting
      depth below the body (0 for a child of the body), so a sequence of
      elements with depths is the document tree in preorder. `name` is the tag
      name and `attrs` the attributes as the HTML parser gives them (lower
      case); `text` is the element's own text. */
  datatype Element = Element(name: string, attrs: map<string, string>, depth: nat, text: string)

  /** The characters `\s` matches in a JavaScript regular expression. */
  predicate IsWhitespace(c: char)
  {
    c == '\t' || c == '\n' || c == '\U{000B}' || c == '\U{000C}' || c == '\r' || c == ' ' ||
    c == '\U{00A0}' || c == '\U{1680}' || ('\U{2000}' <= c <= '\U{200A}') ||
    c == '\U{2028}' || c == '\U{2029}' || c == '\U{202F}' || c == '\U{205F}' ||
    c == '\U{3000}' || c == '\U{FEFF}'
  }

  /** The characters `.` does not match in a JavaScript regular expression. */
  predicate IsLineTerminator(c: char)
  {
    c == '\n' || c == '\r' || c == '\U{2028}' || c == '\U{2029}'
  }

  /** ASCII lower-casing: the case folding a non-Unicode `/i` pattern applies
      to ASCII letters (no other character folds onto an ASCII one). */
  function AsciiLower(c: char): char
  {
    if 'A' <= c <= 'Z' then (c as int + 32) as char else c
  }

  predicate StartsWith(s: string, prefix: string)
  {
    prefix <= s
  }

  /** `s` begins with `prefix`, ignoring the case of ASCII letters. */
  predicate StartsWithIgnoreCase(s: string, prefix: string)
  {
    |prefix| <= |s| && forall i :: 0 <= i < |prefix| ==> AsciiLower(s[i]) == AsciiLower(prefix[i])
  }

  /** JavaScript truthiness of an optional string: defined and not empty. */
  predicate Truthy(o: Option<string>)
  {
    o.Some? && o.value != ""
  }

  /** The end of the subtree rooted at `i`, searching from `k`: the first
      element from `k` on that is not deeper than `i`. Elements i..end are `i`
      and its descendants. */
  function SubtreeEnd(es: seq<Element>, i: nat, k: nat): (j: nat)
    requires i < k <= |es|
    ensures k <= j <= |es|
    ensures forall m :: k <= m < j ==> es[m].depth > es[i].depth
    ensures j == |es| || es[j].depth <= es[i].depth
    decreases |es| - k
  {
    if k < |es| && es[k].depth > es[i].depth then SubtreeEnd(es, i, k + 1) else k
  }

  /** The subtree of `i` ends no later than any element from `k` on that is
      not deeper than `i`. */
  lemma {:induction false} SubtreeEndBound(es: seq<Element>, i: nat, k: nat, m: nat)
    requires i < k <= m <= |es|
    requires m == |es| || es[m].depth <= es[i].depth
    ensures SubtreeEnd(es, i, k) <= m
    decreases |es| - k
  {
    if k < |es| && es[k].depth > es[i].depth {
      SubtreeEndBound(es, i, k + 1, m);
    }
  }

  /** A subtree nested in the subtree of `i` ends within it. */
  lemma NestedSubtreeEnd(es: seq<Element>, i: nat, j: nat)
    requires i < |es| && i < j < SubtreeEnd(es, i, i + 1)
    ensures SubtreeEnd(es, j, j + 1) <= SubtreeEnd(es, i, i + 1)
  {
    SubtreeEndBound(es, j, j + 1, SubtreeEnd(es, i, i + 1));
  }
}
