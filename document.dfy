/** The parsed document and the image watcher as objects the renderer updates
    in place: `sanitize`, `resolveImagePaths`, `handleImages` and the insertion
    of the converter's error banner. Each method is proved against the
    functional specification of its module. */
module Document {
  import opened Wrappers
  import opened Html
  import opened Sanitizer
  import opened ImagePaths
  import opened Highlight

  /** The watcher that reports a version for each image path, so that the
      preview reloads changed images. `watched` is the list of paths it was
      asked about since it was last cleared; `versionOf` is what it reports. */
  class ImageWatcher {
    var watched: seq<string>
    const versionOf: string -> Option<string>

    constructor (versionOf: string -> Option<string>)
      ensures watched == [] && this.versionOf == versionOf
    {
      this.versionOf := versionOf;
      watched := [];
    }

    method Clear()
      modifies this
      ensures watched == []
    {
      watched := [];
    }

    method Watch(path: string) returns (version: Option<string>)
      modifies this
      ensures watched == old(watched) + [path]
      ensures version == versionOf(path)
    {
      watched := watched + [path];
      version := versionOf(path);
    }
  }

  /** The versions a possibly absent watcher reports. */
  function VersionsOf(watcher: ImageWatcher?): Option<string -> Option<string>>
  {
    if watcher == null then None else Some(watcher.versionOf)
  }

  /** Removes each listed attribute from one element, one attribute at a
      time, as the second pass of `sanitize` does. */
  method RemoveEventHandlers(e: Element) returns (r: Element)
    ensures r == StripEventHandlers(e)
  {
    r := e;
    for a := 0 to |EventAttributes|
      invariant r.name == e.name && r.depth == e.depth && r.text == e.text
      invariant forall x :: x in r.attrs <==> x in e.attrs && x !in EventAttributes[..a]
      invariant forall x :: x in r.attrs ==> r.attrs[x] == e.attrs[x]
    {
      assert EventAttributes[..a + 1] == EventAttributes[..a] + [EventAttributes[a]];
      r := r.(attrs := r.attrs - {EventAttributes[a]});
    }
    assert EventAttributes[..|EventAttributes|] == EventAttributes;
    assert r.attrs == StripEventHandlers(e).attrs;
  }

  /** The error banner put before the body's first element: a `div` holding an
      `h1` heading and a `code` element with the message. */
  function ErrorBanner(message: string): (r: seq<Element>)
    ensures |r| == 4 && r[0].name == "div" && r[0].depth == 0
    ensures r[2].name == "code" && r[2].text == message
    ensures forall k :: 1 <= k < 4 ==> r[k].depth == 1
    ensures forall k :: 0 <= k < 4 ==> r[k].attrs == map[] && r[k].name != "script"
  {
    [Element("div", map[], 0, ""), Element("h1", map[], 1, "Pandoc Error:"),
     Element("code", map[], 1, message), Element("hr", map[], 1, "")]
  }

  class Document {
    /** The document's elements in document order. */
    var elements: seq<Element>

    constructor (elements: seq<Element>)
      ensures this.elements == elements
    {
      this.elements := elements;
    }

    /** Remove every unsafe script, then remove each listed attribute from
        every remaining element. */
    method Sanitize()
      modifies this
      ensures elements == Sanitized(old(elements))
    {
      RemoveUnsafeScripts();
      RemoveEventAttributes();
    }

    /** The first pass: each unsafe script is removed with its whole subtree. */
    method RemoveUnsafeScripts()
      modifies this
      ensures elements == WithoutUnsafeScripts(old(elements))
    {
      var original := elements;
      var kept: seq<Element> := [];
      var i := 0;
      while i < |original|
        invariant i <= |original|
        invariant kept + KeptFrom(original, i) == WithoutUnsafeScripts(original)
        decreases |original| - i
      {
        if IsUnsafeScript(original[i]) {
          i := SubtreeEnd(original, i, i + 1);
        } else {
          kept := kept + [original[i]];
          i := i + 1;
        }
      }
      elements := kept;
    }

    /** The second pass: each listed attribute is removed from every element. */
    method RemoveEventAttributes()
      modifies this
      ensures elements == StripAll(old(elements))
    {
      for i := 0 to |elements|
        invariant |elements| == |old(elements)|
        invariant forall j :: 0 <= j < i ==> elements[j] == StripEventHandlers(old(elements)[j])
        invariant forall j :: i <= j < |elements| ==> elements[j] == old(elements)[j]
      {
        var e := RemoveEventHandlers(elements[i]);
        elements := elements[i := e];
      }
    }

    /** Rewrite the `src` of each media element in document order, asking the
        watcher, when there is one, for each rewritten path's version. A
        malformed URI stops the pass (the source throws), leaving the elements
        before it rewritten and the rest as they were. */
    method ResolveImagePaths(p: Pass, watcher: ImageWatcher?) returns (ok: bool)
      modifies this, watcher
      ensures ok <==> PassLength(p, old(elements)) == |old(elements)|
      ensures var n := PassLength(p, old(elements));
        elements == ResolvedAll(p, VersionsOf(watcher), old(elements)[..n]) + old(elements)[n..]
      ensures watcher != null ==>
        watcher.watched == old(watcher.watched) + WatchedPaths(p, old(elements)[..PassLength(p, old(elements))])
    {
      ghost var original := elements;
      ghost var versions := VersionsOf(watcher);
      ghost var before := if watcher != null then watcher.watched else [];
      var i := 0;
      while i < |elements|
        invariant |elements| == |original| && i <= |original|
        invariant Resolving(p, versions, original, i, elements)
        invariant watcher != null ==> Watching(p, original, i, before, watcher.watched)
      {
        ghost var es := elements;
        ghost var ws := if watcher != null then watcher.watched else [];
        ok := ResolveAt(p, watcher, i);
        if !ok {
          PassStopped(p, versions, original, i, elements);
          return;
        }
        ResolvingAdvance(p, versions, original, i, es, elements);
        if watcher != null {
          WatchingAdvance(p, original, i, before, ws, watcher.watched);
        }
        i := i + 1;
      }
      PassFinished(p, versions, original, elements);
      return true;
    }

    method ResolveAt(p: Pass, watcher: ImageWatcher?, i: nat) returns (ok: bool)
      requires i < |elements|
      modifies this, watcher
      ensures ok <==> !FailsOn(p, old(elements)[i])
      ensures ok ==> elements == old(elements)[i := ResolvedElement(p, VersionsOf(watcher), old(elements)[i])]
      ensures !ok ==> elements == old(elements)
      ensures watcher != null ==> watcher.watched == old(watcher.watched) + RewrittenPath(p, old(elements)[i])
    {
      var e := elements[i];
      ok := true;
      if p.host.isMedia(e) {
        match DecideSrc(p, SrcOf(e))
        case Leave =>
        case MalformedUri =>
          ok := false;
        case Rewrite(path) =>
          var version := None;
          if watcher != null {
            version := watcher.Watch(path);
          }
          elements := elements[i := e.(attrs := e.attrs["src" := Versioned(path, version)])];
      }
    }

    /** The save and copy treatment of media: nothing for `untouched`, a pass
        without a watcher otherwise, relativizing for `relativized`. */
    method HandleImages(b: Behaviour, h: Host, usesPandoc: bool, filePath: Option<string>, savePath: Option<string>)
      returns (ok: bool)
      modifies this
      ensures b == Untouched ==> ok && elements == old(elements)
      ensures b != Untouched ==>
        var p := Pass(h, usesPandoc, filePath, b == Relativized, savePath);
        var n := PassLength(p, old(elements));
        (ok <==> n == |old(elements)|) &&
        elements == ResolvedAll(p, None, old(elements)[..n]) + old(elements)[n..]
    {
      match PassFor(b)
      case None =>
        ok := true;
      case Some(relativize) =>
        ok := ResolveImagePaths(Pass(h, usesPandoc, filePath, relativize, savePath), null);
    }

    /** The highlighter requests for the `pre` elements, in document order. */
    method HighlightCodeBlocks(defaultLanguage: string, copyHtml: bool) returns (requests: seq<HighlightRequest>)
      ensures requests == HighlightRequests(elements, defaultLanguage, copyHtml)
    {
      var pres := PreIndices(elements, |elements|);
      requests := [];
      for j := 0 to |pres|
        invariant requests == RequestsAt(elements, pres[..j], defaultLanguage, copyHtml)
      {
        assert pres[..j + 1][..j] == pres[..j];
        requests := requests + [RequestAt(elements, pres[j], defaultLanguage, copyHtml)];
      }
      assert pres[..|pres|] == pres;
    }

    /** Put the converter's error banner before the body's first element. */
    method InsertErrorBanner(message: string)
      modifies this
      ensures elements == ErrorBanner(message) + old(elements)
    {
      elements := ErrorBanner(message) + elements;
    }
  }
}
