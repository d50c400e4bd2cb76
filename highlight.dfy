/** The code-block part of `render`: the default language and, for each `pre`
    element, the request handed to the syntax highlighter (fence name, text,
    and the shape of the editor element to produce). The highlighter itself
    and the replacement of the `pre` element by its output are outside the
    model; what is modelled is what it is asked to do. */
module Highlight {
  import opened Wrappers
  import opened Html

  /** The language of a code block without a class: `coffee` in a Literate
      CoffeeScript file, `text` otherwise. */
  function DefaultCodeLanguage(grammarScope: Option<string>): (r: string)
    ensures r == "coffee" <==> grammarScope == Some("source.litcoffee")
    ensures r == "text" <==> grammarScope != Some("source.litcoffee")
  {
    if grammarScope == Some("source.litcoffee") then "coffee" else "text"
  }

  /** The fence name of a code block: its class with one leading `lang-` or
      `sourceCode ` removed, or the default language when the class is empty. */
  function FenceName(cbClass: string, defaultLanguage: string): (r: string)
    ensures cbClass == "" ==> r == defaultLanguage
    ensures cbClass != "" && StartsWith(cbClass, "lang-") ==> cbClass == "lang-" + r
    ensures cbClass != "" && StartsWith(cbClass, "sourceCode ") ==> cbClass == "sourceCode " + r
    ensures cbClass != "" && !StartsWith(cbClass, "lang-") && !StartsWith(cbClass, "sourceCode ") ==> r == cbClass
  {
    if cbClass == "" then defaultLanguage
    else if StartsWith(cbClass, "lang-") then assert cbClass[0] == 'l'; cbClass[5..]
    else if StartsWith(cbClass, "sourceCode ") then cbClass[11..]
    else cbClass
  }

  /** The class of the editor element the highlighter produces. */
  function EditorDivClass(fenceName: string, copyHtml: bool): (r: string)
    ensures var addClass := if copyHtml then "editor-colors " else "";
      StartsWith(r, addClass) &&
      (fenceName == "" ==> r == addClass) &&
      (fenceName != "" ==> r[|addClass|..] == "lang-" + fenceName)
  {
    var addClass := if copyHtml then "editor-colors " else "";
    if fenceName != "" then addClass + "lang-" + fenceName else addClass
  }

  /** One request to the highlighter. */
  datatype HighlightRequest = HighlightRequest(
    fileContents: string,
    fenceName: string,
    lineDivs: bool,
    editorDivTag: string,
    editorDivClass: string)

  /** `className`: the `class` attribute, or empty. */
  function ClassName(e: Element): string
  {
    if "class" in e.attrs then e.attrs["class"] else ""
  }

  /** The code block of the `pre` element at `i`: its first element child when
      it has one (the next element, one level deeper), the `pre` itself
      otherwise. */
  function CodeBlock(es: seq<Element>, i: nat): (cb: nat)
    requires i < |es|
    ensures cb < |es| && (cb == i || cb == i + 1)
    ensures cb == i + 1 <==> i + 1 < |es| && es[i + 1].depth == es[i].depth + 1
  {
    if i + 1 < |es| && es[i + 1].depth == es[i].depth + 1 then i + 1 else i
  }

  /** The texts of es[lo..hi) in document order. */
  function TextsOf(es: seq<Element>, lo: nat, hi: nat): string
    requires lo <= hi <= |es|
    decreases hi - lo
  {
    if lo == hi then "" else es[lo].text + TextsOf(es, lo + 1, hi)
  }

  /** `textContent`: the text of the element and of its descendants, in
      document order. */
  function TextContent(es: seq<Element>, i: nat): string
    requires i < |es|
  {
    TextsOf(es, i, SubtreeEnd(es, i, i + 1))
  }

  /** `s.replace(/\n$/, '')`: one final line feed removed. */
  function TrimFinalNewline(s: string): (r: string)
    ensures r <= s && |s| - 1 <= |r|
    ensures |r| == |s| <==> s == [] || s[|s| - 1] != '\n'
  {
    if |s| > 0 && s[|s| - 1] == '\n' then s[..|s| - 1] else s
  }

  /** The request for the `pre` element at `i`. */
  function RequestAt(es: seq<Element>, i: nat, defaultLanguage: string, copyHtml: bool): (r: HighlightRequest)
    requires i < |es|
  {
    var cb := CodeBlock(es, i);
    var fenceName := FenceName(ClassName(es[cb]), defaultLanguage);
    HighlightRequest(
      TrimFinalNewline(TextContent(es, cb)),
      fenceName,
      !copyHtml,
      if copyHtml then "pre" else "atom-text-editor",
      EditorDivClass(fenceName, copyHtml))
  }

  /** The requests for the `pre` elements at the positions `ps`, in that
      order. */
  function RequestsAt(es: seq<Element>, ps: seq<nat>, defaultLanguage: string, copyHtml: bool): seq<HighlightRequest>
    requires forall k :: 0 <= k < |ps| ==> ps[k] < |es|
  {
    if |ps| == 0 then []
    else RequestsAt(es, ps[..|ps| - 1], defaultLanguage, copyHtml) + [RequestAt(es, ps[|ps| - 1], defaultLanguage, copyHtml)]
  }

  /** The positions of the `pre` elements among the first `n`, in document
      order (`PreIndicesExact`). */
  function PreIndices(es: seq<Element>, n: nat): (r: seq<nat>)
    requires n <= |es|
    ensures forall k :: 0 <= k < |r| ==> r[k] < n
  {
    if n == 0 then [] else PreIndices(es, n - 1) + (if es[n - 1].name == "pre" then [n - 1] else [])
  }

  /** The requests for every `pre` element of a document, in document order. */
  function HighlightRequests(es: seq<Element>, defaultLanguage: string, copyHtml: bool): seq<HighlightRequest>
  {
    RequestsAt(es, PreIndices(es, |es|), defaultLanguage, copyHtml)
  }

  // ---------------------------------------------------------------------------
  // Properties

  /** A class written as `lang-` followed by a non-empty name gives back that
      name, and only the first prefix is removed (`lang-lang-x` gives
      `lang-x`). */
  lemma FenceNameOfLangClass(name: string, defaultLanguage: string)
    ensures FenceName("lang-" + name, defaultLanguage) == name
  {
    assert StartsWith("lang-" + name, "lang-");
  }

  /** The editor element the highlighter produces for the preview carries the
      class `lang-<fence name>`, from which the same fence name is read back. */
  lemma EditorClassRoundTrip(fenceName: string, defaultLanguage: string)
    requires fenceName != ""
    ensures FenceName(EditorDivClass(fenceName, false), defaultLanguage) == fenceName
  {
    FenceNameOfLangClass(fenceName, defaultLanguage);
  }

  /** `PreIndices` lists every `pre` position below `n`, and nothing else,
      each once, in increasing order. */
  lemma {:induction false} PreIndicesExact(es: seq<Element>, n: nat)
    requires n <= |es|
    ensures var r := PreIndices(es, n);
      (forall k :: 0 <= k < |r| ==> r[k] < n && es[r[k]].name == "pre") &&
      (forall a, b :: 0 <= a < b < |r| ==> r[a] < r[b]) &&
      (forall i :: 0 <= i < n && es[i].name == "pre" ==> i in r)
  {
    if n > 0 {
      PreIndicesExact(es, n - 1);
    }
  }

  /** There are as many requests as positions. */
  lemma {:induction false} RequestsAtLength(es: seq<Element>, ps: seq<nat>, defaultLanguage: string, copyHtml: bool)
    requires forall k :: 0 <= k < |ps| ==> ps[k] < |es|
    ensures |RequestsAt(es, ps, defaultLanguage, copyHtml)| == |ps|
  {
    if |ps| > 0 {
      RequestsAtLength(es, ps[..|ps| - 1], defaultLanguage, copyHtml);
    }
  }

  /** The k-th request is made from the k-th position. */
  lemma {:induction false} RequestAtPosition(es: seq<Element>, ps: seq<nat>, k: nat, defaultLanguage: string, copyHtml: bool)
    requires forall j :: 0 <= j < |ps| ==> ps[j] < |es|
    requires k < |ps|
    ensures |RequestsAt(es, ps, defaultLanguage, copyHtml)| == |ps|
    ensures RequestsAt(es, ps, defaultLanguage, copyHtml)[k] == RequestAt(es, ps[k], defaultLanguage, copyHtml)
  {
    var init := ps[..|ps| - 1];
    var last := RequestAt(es, ps[|ps| - 1], defaultLanguage, copyHtml);
    var front := RequestsAt(es, init, defaultLanguage, copyHtml);
    RequestsAtLength(es, init, defaultLanguage, copyHtml);
    assert RequestsAt(es, ps, defaultLanguage, copyHtml) == front + [last];
    if k < |init| {
      RequestAtPosition(es, init, k, defaultLanguage, copyHtml);
      assert init[k] == ps[k];
      assert (front + [last])[k] == front[k];
    } else {
      assert k == |front|;
      assert (front + [last])[k] == last;
    }
  }

  /** There is one request per `pre` element, in document order: the k-th
      request is made from the k-th `pre` element, and the `pre` elements are
      listed exactly by `PreIndices` (`PreIndicesExact`). */
  lemma RequestsPerPre(es: seq<Element>, defaultLanguage: string, copyHtml: bool)
    ensures var rs := HighlightRequests(es, defaultLanguage, copyHtml);
      var ps := PreIndices(es, |es|);
      |rs| == |ps| && forall k :: 0 <= k < |ps| ==> rs[k] == RequestAt(es, ps[k], defaultLanguage, copyHtml)
  {
    var ps := PreIndices(es, |es|);
    RequestsAtLength(es, ps, defaultLanguage, copyHtml);
    forall k | 0 <= k < |ps|
      ensures HighlightRequests(es, defaultLanguage, copyHtml)[k] == RequestAt(es, ps[k], defaultLanguage, copyHtml)
    {
      RequestAtPosition(es, ps, k, defaultLanguage, copyHtml);
    }
  }

  /** Two documents whose elements agree on names, depths, texts and classes. */
  predicate SameShape(es: seq<Element>, fs: seq<Element>)
  {
    |es| == |fs| &&
    forall i :: 0 <= i < |es| ==>
      es[i].name == fs[i].name && es[i].depth == fs[i].depth && es[i].text == fs[i].text && ClassName(es[i]) == ClassName(fs[i])
  }

  /** Documents of the same shape yield the same requests. */
  lemma RequestsDependOnShape(es: seq<Element>, fs: seq<Element>, defaultLanguage: string, copyHtml: bool)
    requires SameShape(es, fs)
    ensures HighlightRequests(es, defaultLanguage, copyHtml) == HighlightRequests(fs, defaultLanguage, copyHtml)
  {
    SamePreIndices(es, fs, |es|);
    var ps := PreIndices(es, |es|);
    forall k | 0 <= k < |ps|
      ensures RequestAt(es, ps[k], defaultLanguage, copyHtml) == RequestAt(fs, ps[k], defaultLanguage, copyHtml)
    {
      RequestAtSameShape(es, fs, ps[k], defaultLanguage, copyHtml);
    }
    SameRequestsAt(es, fs, ps, defaultLanguage, copyHtml);
  }

  /** Documents whose element names agree have their `pre` elements at the
      same positions. */
  lemma {:induction false} SamePreIndices(es: seq<Element>, fs: seq<Element>, n: nat)
    requires n <= |es| == |fs|
    requires forall i :: 0 <= i < n ==> es[i].name == fs[i].name
    ensures PreIndices(es, n) == PreIndices(fs, n)
  {
    if n > 0 {
      SamePreIndices(es, fs, n - 1);
    }
  }

  /** The requests agree when the request made at each position agrees. */
  lemma {:induction false} SameRequestsAt(es: seq<Element>, fs: seq<Element>, ps: seq<nat>, defaultLanguage: string, copyHtml: bool)
    requires |es| == |fs| && forall k :: 0 <= k < |ps| ==> ps[k] < |es|
    requires forall k :: 0 <= k < |ps| ==>
      RequestAt(es, ps[k], defaultLanguage, copyHtml) == RequestAt(fs, ps[k], defaultLanguage, copyHtml)
    ensures RequestsAt(es, ps, defaultLanguage, copyHtml) == RequestsAt(fs, ps, defaultLanguage, copyHtml)
  {
    if |ps| > 0 {
      SameRequestsAt(es, fs, ps[..|ps| - 1], defaultLanguage, copyHtml);
    }
  }

  lemma RequestAtSameShape(es: seq<Element>, fs: seq<Element>, i: nat, defaultLanguage: string, copyHtml: bool)
    requires i < |es| && SameShape(es, fs)
    ensures RequestAt(es, i, defaultLanguage, copyHtml) == RequestAt(fs, i, defaultLanguage, copyHtml)
  {
    assert CodeBlock(es, i) == CodeBlock(fs, i);
    var cb := CodeBlock(es, i);
    SameTextContent(es, fs, cb);
    assert ClassName(es[cb]) == ClassName(fs[cb]);
  }

  lemma SameTextContent(es: seq<Element>, fs: seq<Element>, i: nat)
    requires i < |es| == |fs|
    requires forall k :: 0 <= k < |es| ==> es[k].depth == fs[k].depth && es[k].text == fs[k].text
    ensures TextContent(es, i) == TextContent(fs, i)
  {
    SameSubtreeEnd(es, fs, i, i + 1);
    SameTexts(es, fs, i, SubtreeEnd(es, i, i + 1));
  }

  lemma {:induction false} SameSubtreeEnd(es: seq<Element>, fs: seq<Element>, i: nat, k: nat)
    requires i < k <= |es| == |fs|
    requires forall m :: 0 <= m < |es| ==> es[m].depth == fs[m].depth
    ensures SubtreeEnd(es, i, k) == SubtreeEnd(fs, i, k)
    decreases |es| - k
  {
    if k < |es| && es[k].depth > es[i].depth {
      SameSubtreeEnd(es, fs, i, k + 1);
    }
  }

  lemma {:induction false} SameTexts(es: seq<Element>, fs: seq<Element>, lo: nat, hi: nat)
    requires lo <= hi <= |es| == |fs|
    requires forall m :: 0 <= m < |es| ==> es[m].text == fs[m].text
    ensures TextsOf(es, lo, hi) == TextsOf(fs, lo, hi)
    decreases hi - lo
  {
    if lo < hi {
      SameTexts(es, fs, lo + 1, hi);
    }
  }
}
