/** `render`: the Markdown text goes through the doctype strip, a backend, the
    sanitizer, the image pass chosen by the render mode, the code-block
    highlighter and, after a soft failure of the external converter, the error
    banner.

    The backends and the HTML parser appear as functions from text to
    elements; the configuration the source reads globally is a parameter.
    `Rendered` is the functional specification of the whole pipeline and
    `Render` the method that runs it on a `Document`. */
module Render {
  import opened Wrappers
  import opened Html
  import opened Doctype
  import opened Sanitizer
  import opened ImagePaths
  import opened Highlight
  import opened Document

  /** The render mode. Only `normal`, `save` and `copy` are meaningful; any
      other value is carried in `Unrecognised`. */
  datatype RenderMode =
    | Normal(watcher: ImageWatcher)
    | Save(savePath: string)
    | Copy
    | Unrecognised(name: string)

  datatype RenderOptions = RenderOptions(
    text: string,
    filePath: Option<string>,
    grammarScope: Option<string>,   // the editor grammar's scope name, if there is a grammar
    renderLaTeX: bool,
    mode: RenderMode)

  /** The settings `render` reads. */
  datatype Config = Config(
    usePandoc: bool,                  // the renderer setting is `pandoc`
    useNativePandocCodeStyles: bool,
    saveBehaviour: Behaviour,         // media when saving as HTML
    copyBehaviour: Behaviour)         // media when copying as HTML

  /** What the external converter gives back: the parsed document, or a
      rejection with a message and, for a soft failure, a document. */
  datatype Conversion =
    | Converted(html: seq<Element>)
    | Rejected(message: string, partial: Option<seq<Element>>)

  /** The two backends, each followed by the HTML parser. */
  datatype Backends = Backends(
    pandoc: (string, Option<string>, bool) -> Conversion,
    markdownIt: (string, bool) -> seq<Element>)

  /** The ways `render` rejects. */
  datatype RenderError =
    | BackendError(message: string)   // the converter failed without a document
    | InvalidMode(mode: string)       // thrown with InvalidModeMessage(mode)
    | UriError                        // decodeURI threw during the image pass

  /** A lower-case hexadecimal digit. */
  function HexDigit(n: nat): char
    requires n < 16
  {
    if n < 10 then ('0' as int + n) as char else ('a' as int + n - 10) as char
  }

  /** How `JSON.stringify` writes one character inside a string literal. */
  function JsonEscape(c: char): (r: string)
    ensures |r| >= 1
    ensures r == [c] <==> c != '"' && c != '\\' && c as int >= 0x20
  {
    if c == '"' then "\\\""
    else if c == '\\' then "\\\\"
    else if c == '\U{0008}' then "\\b"
    else if c == '\U{000C}' then "\\f"
    else if c == '\n' then "\\n"
    else if c == '\r' then "\\r"
    else if c == '\t' then "\\t"
    else if (c as int) < 0x20 then "\\u00" + [HexDigit(c as int / 16), HexDigit(c as int % 16)]
    else [c]
  }

  function JsonEscapeAll(s: string): string
  {
    if s == [] then "" else JsonEscape(s[0]) + JsonEscapeAll(s[1..])
  }

  /** `JSON.stringify` of a string: the escaped characters between double quotes. */
  function JsonQuote(s: string): (r: string)
    ensures |r| >= |s| + 2 && r[0] == '"' && r[|r| - 1] == '"'
  {
    JsonEscapeLength(s);
    "\"" + JsonEscapeAll(s) + "\""
  }

  lemma {:induction false} JsonEscapeLength(s: string)
    ensures |JsonEscapeAll(s)| >= |s|
  {
    if s != [] {
      JsonEscapeLength(s[1..]);
    }
  }

  /** A string without quotes, backslashes or control characters is written as
      it is, between double quotes. */
  lemma {:induction false} JsonQuotePlain(s: string)
    requires forall k :: 0 <= k < |s| ==> s[k] != '"' && s[k] != '\\' && s[k] as int >= 0x20
    ensures JsonQuote(s) == "\"" + s + "\""
  {
    PlainEscapesToItself(s);
  }

  lemma {:induction false} PlainEscapesToItself(s: string)
    requires forall k :: 0 <= k < |s| ==> s[k] != '"' && s[k] != '\\' && s[k] as int >= 0x20
    ensures JsonEscapeAll(s) == s
  {
    if s != [] {
      PlainEscapesToItself(s[1..]);
      assert s == [s[0]] + s[1..];
    }
  }

  /** The message of the error thrown for an unrecognised mode. */
  function InvalidModeMessage(mode: string): (m: string)
    ensures StartsWith(m, "Invalid render mode \"") && m[|m| - 1] == '"'
    ensures |m| >= |"Invalid render mode "| + |mode| + 2
  {
    "Invalid render mode " + JsonQuote(mode)
  }

  /** The document from the backend and the soft-error message ("" for none). */
  function Converted(opts: RenderOptions, cfg: Config, backends: Backends): (r: Result<(seq<Element>, string), RenderError>)
    ensures r.Failure? <==> (cfg.usePandoc &&
      backends.pandoc(StripDoctype(opts.text), opts.filePath, opts.renderLaTeX).Rejected? &&
      backends.pandoc(StripDoctype(opts.text), opts.filePath, opts.renderLaTeX).partial.None?)
    ensures r.Failure? ==> r.error.BackendError?
    ensures r.Success? && r.value.1 != "" ==> cfg.usePandoc
  {
    var text := StripDoctype(opts.text);
    if !cfg.usePandoc then Success((backends.markdownIt(text, opts.renderLaTeX), ""))
    else match backends.pandoc(text, opts.filePath, opts.renderLaTeX)
      case Converted(html) => Success((html, ""))
      case Rejected(message, None) => Failure(BackendError(message))
      case Rejected(message, Some(html)) => Success((html, message))
  }

  /** The image pass the mode calls for: one with the watcher in the preview,
      the configured behaviour when saving or copying, none for `untouched`;
      an unrecognised mode is an error. */
  function ImagePass(opts: RenderOptions, cfg: Config, h: Host): (r: Result<Option<Pass>, RenderError>)
    ensures r.Failure? <==> opts.mode.Unrecognised?
    ensures r.Failure? ==> r.error == InvalidMode(opts.mode.name)
    ensures r.Success? && r.value.Some? ==>
      r.value.value.host == h && r.value.value.usesPandoc == cfg.usePandoc && r.value.value.filePath == opts.filePath
    ensures opts.mode.Normal? ==> r == Success(Some(Pass(h, cfg.usePandoc, opts.filePath, false, None)))
    ensures opts.mode.Save? ==> (r.Success? &&
      (r.value.None? <==> cfg.saveBehaviour == Untouched) &&
      (r.value.Some? ==> r.value.value.savePath == Some(opts.mode.savePath) &&
                         (r.value.value.relativize <==> cfg.saveBehaviour == Relativized)))
    ensures opts.mode.Copy? ==> (r.Success? &&
      (r.value.None? <==> cfg.copyBehaviour == Untouched) &&
      (r.value.Some? ==> r.value.value.savePath == None &&
                         (r.value.value.relativize <==> cfg.copyBehaviour == Relativized)))
  {
    match opts.mode
    case Normal(_) => Success(Some(Pass(h, cfg.usePandoc, opts.filePath, false, None)))
    case Save(savePath) =>
      Success(match PassFor(cfg.saveBehaviour)
              case None => None
              case Some(relativize) => Some(Pass(h, cfg.usePandoc, opts.filePath, relativize, Some(savePath))))
    case Copy =>
      Success(match PassFor(cfg.copyBehaviour)
              case None => None
              case Some(relativize) => Some(Pass(h, cfg.usePandoc, opts.filePath, relativize, None)))
    case Unrecognised(name) => Failure(InvalidMode(name))
  }

  /** The versions the image pass appends: the watcher's, in the preview only. */
  function ModeVersions(mode: RenderMode): Option<string -> Option<string>>
  {
    if mode.Normal? then Some(mode.watcher.versionOf) else None
  }

  /** Whether code blocks go through the highlighter. */
  predicate Highlights(cfg: Config)
  {
    !(cfg.usePandoc && cfg.useNativePandocCodeStyles)
  }

  /** What a successful `render` produces. */
  datatype Rendering = Rendering(elements: seq<Element>, requests: seq<HighlightRequest>)

  /** The sanitized document after the image pass the mode calls for. */
  function Imaged(opts: RenderOptions, cfg: Config, h: Host, clean: seq<Element>): Result<seq<Element>, RenderError>
  {
    match ImagePass(opts, cfg, h)
    case Failure(e) => Failure(e)
    case Success(None) => Success(clean)
    case Success(Some(pass)) =>
      if PassLength(pass, clean) < |clean| then Failure(UriError)
      else Success(ResolvedAll(pass, ModeVersions(opts.mode), clean))
  }

  /** The document after the sanitizer and the image pass. */
  function Processed(opts: RenderOptions, cfg: Config, h: Host, html: seq<Element>): Result<seq<Element>, RenderError>
  {
    Imaged(opts, cfg, h, Sanitized(html))
  }

  /** The whole pipeline. */
  function Rendered(opts: RenderOptions, cfg: Config, h: Host, backends: Backends): Result<Rendering, RenderError>
  {
    match Converted(opts, cfg, backends)
    case Failure(e) => Failure(e)
    case Success((html, message)) =>
      match Processed(opts, cfg, h, html)
      case Failure(e) => Failure(e)
      case Success(doc) =>
        var requests := if Highlights(cfg)
          then HighlightRequests(doc, DefaultCodeLanguage(opts.grammarScope), !opts.mode.Normal?)
          else [];
        Success(Rendering((if message != "" then ErrorBanner(message) else []) + doc, requests))
  }

  /** The objects `render` may change: the preview's image watcher. */
  function ModeObjects(mode: RenderMode): set<object>
  {
    if mode.Normal? then {mode.watcher} else {}
  }

  /** The mode dispatch: the image pass on the sanitized document, with the
      watcher cleared first in the preview. */
  method ProcessImages(doc: Document, opts: RenderOptions, cfg: Config, h: Host) returns (error: Option<RenderError>)
    modifies doc, ModeObjects(opts.mode)
    ensures var spec := Imaged(opts, cfg, h, old(doc.elements));
      (error.None? <==> spec.Success?) &&
      (error.Some? ==> error.value == spec.error) &&
      (error.None? ==> doc.elements == spec.value)
    ensures opts.mode.Normal? ==>
      var pass := Pass(h, cfg.usePandoc, opts.filePath, false, None);
      opts.mode.watcher.watched == WatchedPaths(pass, old(doc.elements)[..PassLength(pass, old(doc.elements))])
  {
    var ok: bool;
    match opts.mode {
      case Normal(watcher) =>
        watcher.Clear();
        ok := doc.ResolveImagePaths(Pass(h, cfg.usePandoc, opts.filePath, false, None), watcher);
      case Save(savePath) =>
        ok := doc.HandleImages(cfg.saveBehaviour, h, cfg.usePandoc, opts.filePath, Some(savePath));
      case Copy =>
        ok := doc.HandleImages(cfg.copyBehaviour, h, cfg.usePandoc, opts.filePath, None);
      case Unrecognised(name) =>
        return Some(InvalidMode(name));
    }
    if !ok {
      return Some(UriError);
    }
    assert old(doc.elements)[..|old(doc.elements)|] == old(doc.elements);
    return None;
  }

  method Render(opts: RenderOptions, cfg: Config, h: Host, backends: Backends)
    returns (r: Result<Document, RenderError>, requests: seq<HighlightRequest>)
    modifies ModeObjects(opts.mode)
    ensures var spec := Rendered(opts, cfg, h, backends);
      (r.Failure? <==> spec.Failure?) &&
      (r.Failure? ==> r.error == spec.error) &&
      (r.Success? ==> fresh(r.value) && r.value.elements == spec.value.elements && requests == spec.value.requests)
    ensures opts.mode.Normal? && Converted(opts, cfg, backends).Success? ==>
      var clean := Sanitized(Converted(opts, cfg, backends).value.0);
      var pass := Pass(h, cfg.usePandoc, opts.filePath, false, None);
      opts.mode.watcher.watched == WatchedPaths(pass, clean[..PassLength(pass, clean)])
    ensures opts.mode.Normal? && Converted(opts, cfg, backends).Failure? ==>
      opts.mode.watcher.watched == old(opts.mode.watcher.watched)
  {
    requests := [];
    var converted := Converted(opts, cfg, backends);
    if converted.Failure? {
      return Failure(converted.error), [];
    }
    var (html, error) := converted.value;
    var doc := new Document(html);
    doc.Sanitize();
    var failure := ProcessImages(doc, opts, cfg, h);
    if failure.Some? {
      return Failure(failure.value), [];
    }
    var defaultCodeLanguage := DefaultCodeLanguage(opts.grammarScope);
    if Highlights(cfg) {
      requests := doc.HighlightCodeBlocks(defaultCodeLanguage, !opts.mode.Normal?);
    }
    if error != "" {
      doc.InsertErrorBanner(error);
    }
    return Success(doc), requests;
  }

  // ---------------------------------------------------------------------------
  // Properties of the pipeline

  /** An element `sanitize` would leave as it is. */
  predicate IsSafe(e: Element)
  {
    !IsUnsafeScript(e) && forall a :: a in EventAttributes ==> a !in e.attrs
  }

  /** The image pass never makes an element unsafe: it only writes `src`,
      which is neither `type` nor a listed attribute. */
  lemma ResolvedKeepsSafe(pass: Pass, versions: Option<string -> Option<string>>, e: Element)
    requires IsSafe(e)
    ensures IsSafe(ResolvedElement(pass, versions, e))
  {
    var r := ResolvedElement(pass, versions, e);
    assert "src" !in EventAttributes;
    if "type" in e.attrs {
      assert r.attrs["type"] == e.attrs["type"];
    } else {
      assert "type" !in r.attrs;
    }
  }

  /** Whatever the mode, the backend and the host, the rendered document holds
      no script whose type does not begin with `math/tex` and no listed
      event-handler attribute: neither the image pass nor the error banner
      undoes `sanitize`. */
  lemma RenderedIsSafe(opts: RenderOptions, cfg: Config, h: Host, backends: Backends)
    requires Rendered(opts, cfg, h, backends).Success?
    ensures forall x :: x in Rendered(opts, cfg, h, backends).value.elements ==> IsSafe(x)
  {
    var html := Converted(opts, cfg, backends).value.0;
    var message := Converted(opts, cfg, backends).value.1;
    var clean := Sanitized(html);
    SanitizedIsSafe(html);
    var doc := Processed(opts, cfg, h, html).value;
    forall x | x in doc ensures IsSafe(x) {
      var i :| 0 <= i < |doc| && doc[i] == x;
      assert IsSafe(clean[i]);
      if ImagePass(opts, cfg, h).value.Some? {
        ResolvedKeepsSafe(ImagePass(opts, cfg, h).value.value, ModeVersions(opts.mode), clean[i]);
      }
    }
    var banner := if message != "" then ErrorBanner(message) else [];
    assert forall x :: x in banner ==> IsSafe(x);
    assert Rendered(opts, cfg, h, backends).value.elements == banner + doc;
  }

  /** `render` rejects with the invalid-mode error exactly when the mode is not
      `normal`, `save` or `copy` and the backend produced a document: the mode
      is only examined after the backend has run and the document has been
      sanitized, so a backend failure wins. */
  lemma InvalidModeIff(opts: RenderOptions, cfg: Config, h: Host, backends: Backends, name: string)
    ensures Rendered(opts, cfg, h, backends) == Failure(InvalidMode(name)) <==>
      opts.mode == Unrecognised(name) && Converted(opts, cfg, backends).Success?
  {
  }

  /** `render` rejects exactly when the converter fails without a document,
      when the mode is unrecognised, or when the mode's image pass meets a
      media element whose `src` does not decode. */
  lemma RenderFailsIff(opts: RenderOptions, cfg: Config, h: Host, backends: Backends)
    ensures Rendered(opts, cfg, h, backends).Failure? <==>
      Converted(opts, cfg, backends).Failure? ||
      opts.mode.Unrecognised? ||
      (ImagePass(opts, cfg, h).value.Some? &&
       exists x :: x in Sanitized(Converted(opts, cfg, backends).value.0) &&
                   FailsOn(ImagePass(opts, cfg, h).value.value, x))
  {
    if Converted(opts, cfg, backends).Success? && !opts.mode.Unrecognised? && ImagePass(opts, cfg, h).value.Some? {
      var clean := Sanitized(Converted(opts, cfg, backends).value.0);
      var pass := ImagePass(opts, cfg, h).value.value;
      var n := PassLength(pass, clean);
      if n < |clean| {
        assert clean[n] in clean;
      }
    }
  }

  /** Saving or copying with media `untouched` yields the sanitized document,
      after the error banner when the converter reported one, as it stands
      before the highlighter replaces its `pre` elements. */
  lemma UntouchedKeepsSanitized(opts: RenderOptions, cfg: Config, h: Host, backends: Backends)
    requires Converted(opts, cfg, backends).Success?
    requires (opts.mode.Save? && cfg.saveBehaviour == Untouched) || (opts.mode.Copy? && cfg.copyBehaviour == Untouched)
    ensures var message := Converted(opts, cfg, backends).value.1;
      Rendered(opts, cfg, h, backends).Success? &&
      Rendered(opts, cfg, h, backends).value.elements ==
        (if message != "" then ErrorBanner(message) else []) + Sanitized(Converted(opts, cfg, backends).value.0)
  {
  }

  /** A rendered document, before the highlighter replaces its `pre`
      elements, has the converter's elements less the removed scripts and the
      elements inside them, plus the four elements of the banner when there
      is a message. */
  lemma RenderedLength(opts: RenderOptions, cfg: Config, h: Host, backends: Backends)
    requires Rendered(opts, cfg, h, backends).Success?
    ensures var html := Converted(opts, cfg, backends).value.0;
      var message := Converted(opts, cfg, backends).value.1;
      |Rendered(opts, cfg, h, backends).value.elements| ==
        |html| - RemovedCount(html, 0) + (if message != "" then 4 else 0)
  {
    SanitizedLength(Converted(opts, cfg, backends).value.0);
  }

  /** The image pass leaves every code block's request as it was. */
  lemma RequestsIgnoreImages(pass: Pass, versions: Option<string -> Option<string>>, es: seq<Element>,
                             defaultLanguage: string, copyHtml: bool)
    ensures HighlightRequests(ResolvedAll(pass, versions, es), defaultLanguage, copyHtml) ==
            HighlightRequests(es, defaultLanguage, copyHtml)
  {
    var rs := ResolvedAll(pass, versions, es);
    forall i | 0 <= i < |rs|
      ensures rs[i].name == es[i].name && rs[i].depth == es[i].depth && rs[i].text == es[i].text &&
              ClassName(rs[i]) == ClassName(es[i])
    {
      assert rs[i] == ResolvedElement(pass, versions, es[i]);
      if "class" in es[i].attrs {
        assert rs[i].attrs["class"] == es[i].attrs["class"];
      } else {
        assert "class" !in rs[i].attrs;
      }
    }
    assert SameShape(rs, es);
    RequestsDependOnShape(rs, es, defaultLanguage, copyHtml);
  }

  /** Unless the external converter's own code styles are used, `render` asks
      the highlighter for one request per `pre` element of the sanitized
      document, with the default language of the grammar, whatever the image
      pass rewrote; with those styles it asks for none. */
  lemma RenderedRequests(opts: RenderOptions, cfg: Config, h: Host, backends: Backends)
    requires Rendered(opts, cfg, h, backends).Success?
    ensures var clean := Sanitized(Converted(opts, cfg, backends).value.0);
      Rendered(opts, cfg, h, backends).value.requests ==
        if Highlights(cfg)
        then HighlightRequests(clean, DefaultCodeLanguage(opts.grammarScope), !opts.mode.Normal?)
        else []
  {
    var clean := Sanitized(Converted(opts, cfg, backends).value.0);
    if ImagePass(opts, cfg, h).value.Some? {
      RequestsIgnoreImages(ImagePass(opts, cfg, h).value.value, ModeVersions(opts.mode), clean,
                           DefaultCodeLanguage(opts.grammarScope), !opts.mode.Normal?);
    }
  }
}
