/** `resolveImagePaths` and `handleImages`: the rewriting of each media
    element's `src` according to the render mode.

    Node's path functions, `decodeURI`, the file probe, the project lookup, the
    media query and the install locations are the host's, and appear here as
    the fields of `Host`. What remains is the decision each image goes
    through: leave it, fail on a malformed URI, or rewrite it to a resolved
    (and possibly relativized) path, with the watcher's version appended. */
module ImagePaths {
  import opened Wrappers
  import opened Html

  /** The host facilities the pass calls. */
  datatype Host = Host(
    dirname: string -> string,               // path.dirname
    resolve: (string, string) -> string,     // path.resolve(directory, path)
    relative: (string, string) -> string,    // path.relative(from, to)
    join: (string, string) -> string,        // path.join
    decodeUri: string -> Option<string>,     // decodeURI; None where it throws a URIError
    isFile: string -> bool,                  // the synchronous file probe
    projectRoot: string -> Option<string>,   // the project directory holding a file, if any
    isMedia: Element -> bool,                // the elements the media query selects
    resourcesPath: Option<string>,           // the runtime's resources directory, if set
    resourcePath: string,                    // the editor's resource directory
    packagePath: string)                     // this package's directory

  /** The arguments of one pass. `usesPandoc` is true when the external
      converter produced the HTML (its URIs are not decoded). */
  datatype Pass = Pass(host: Host, usesPandoc: bool, filePath: Option<string>,
                       relativize: bool, savePath: Option<string>)

  /** The configured treatment of media when saving or copying as HTML. */
  datatype Behaviour = Relativized | Absolutized | Untouched

  /** What happens to one `src`. */
  datatype SrcOutcome = Leave | MalformedUri | Rewrite(path: string)

  /** `^(https?|atom|data):` */
  predicate HasSchemePrefix(src: string)
  {
    StartsWith(src, "http:") || StartsWith(src, "https:") || StartsWith(src, "atom:") || StartsWith(src, "data:")
  }

  /** A path inside the runtime's, the editor's or this package's directory. */
  predicate UnderInstallRoot(h: Host, src: string)
  {
    (Truthy(h.resourcesPath) && StartsWith(src, h.resourcesPath.value)) ||
    StartsWith(src, h.resourcePath) || StartsWith(src, h.packagePath)
  }

  /** The `src` after decoding: as written for the external converter, decoded
      otherwise. */
  function DecodedSrc(p: Pass, raw: string): Option<string>
  {
    if p.usesPandoc then Some(raw) else p.host.decodeUri(raw)
  }

  /** Resolution of a `src` that is neither remote nor under an install root.
      A root-relative path that is not an existing file is re-rooted under the
      project directory when there is one; any other path is resolved against
      the Markdown file's directory when there is a file path. */
  function ResolvedPath(p: Pass, src: string): string
  {
    var h := p.host;
    if |src| > 0 && src[0] == '/' then
      if !h.isFile(src) && h.projectRoot(if Truthy(p.filePath) then p.filePath.value else "").Some?
      then h.join(h.projectRoot(if Truthy(p.filePath) then p.filePath.value else "").value, src[1..])
      else src
    else if Truthy(p.filePath) then h.resolve(h.dirname(p.filePath.value), src)
    else src
  }

  /** The directory relativized paths are taken from: the save path's when
      there is one, the Markdown file's otherwise. */
  function RelativeBase(p: Pass): Option<string>
  {
    if p.savePath.Some? then Some(p.host.dirname(p.savePath.value))
    else if p.filePath.Some? then Some(p.host.dirname(p.filePath.value))
    else None
  }

  /** The decision for one element's `src` attribute (`raw`, None when absent). */
  function DecideSrc(p: Pass, raw: Option<string>): SrcOutcome
  {
    if !Truthy(raw) then Leave
    else match DecodedSrc(p, raw.value)
      case None => MalformedUri
      case Some(src) =>
        if HasSchemePrefix(src) || UnderInstallRoot(p.host, src) then Leave
        else
          var abs := ResolvedPath(p, src);
          if p.relativize && RelativeBase(p).Some?
          then Rewrite(p.host.relative(RelativeBase(p).value, abs))
          else Rewrite(abs)
  }

  function SrcOf(e: Element): Option<string>
  {
    if "src" in e.attrs then Some(e.attrs["src"]) else None
  }

  /** The final `src`: the rewritten path, followed by `?v=` and the version
      when a watcher reports one. */
  function Versioned(path: string, version: Option<string>): (r: string)
    ensures version.None? ==> r == path
    ensures version.Some? ==> path <= r && r[|path|..] == "?v=" + version.value
  {
    if version.Some? then path + "?v=" + version.value else path
  }

  /** The version a watcher reports for a path, when there is a watcher. */
  function VersionFor(versions: Option<string -> Option<string>>, path: string): Option<string>
  {
    if versions.Some? then versions.value(path) else None
  }

  /** Whether the pass throws on this element. */
  predicate FailsOn(p: Pass, e: Element)
  {
    p.host.isMedia(e) && DecideSrc(p, SrcOf(e)).MalformedUri?
  }

  /** One element after the pass (for an element the pass throws on, the
      element as it was). */
  function ResolvedElement(p: Pass, versions: Option<string -> Option<string>>, e: Element): (r: Element)
    ensures r.name == e.name && r.depth == e.depth && r.text == e.text
    ensures r.attrs.Keys <= e.attrs.Keys + {"src"}
    ensures forall a :: a in e.attrs && a != "src" ==> a in r.attrs && r.attrs[a] == e.attrs[a]
    ensures !p.host.isMedia(e) || !DecideSrc(p, SrcOf(e)).Rewrite? ==> r == e
    ensures p.host.isMedia(e) && DecideSrc(p, SrcOf(e)).Rewrite? ==>
      var path := DecideSrc(p, SrcOf(e)).path;
      "src" in r.attrs && r.attrs["src"] == Versioned(path, VersionFor(versions, path))
  {
    if !p.host.isMedia(e) then e
    else match DecideSrc(p, SrcOf(e))
      case Rewrite(path) => e.(attrs := e.attrs["src" := Versioned(path, VersionFor(versions, path))])
      case _ => e
  }

  /** Every element after a pass that does not throw. */
  function ResolvedAll(p: Pass, versions: Option<string -> Option<string>>, es: seq<Element>): (r: seq<Element>)
    ensures |r| == |es|
  {
    seq(|es|, i requires 0 <= i < |es| => ResolvedElement(p, versions, es[i]))
  }

  /** The paths handed to the watcher, in document order. */
  function WatchedPaths(p: Pass, es: seq<Element>): seq<string>
  {
    if es == [] then []
    else WatchedPaths(p, es[..|es| - 1]) + RewrittenPath(p, es[|es| - 1])
  }

  /** The path one element hands to the watcher: its rewritten path, if any. */
  function RewrittenPath(p: Pass, e: Element): (r: seq<string>)
    ensures |r| <= 1
    ensures r != [] <==> p.host.isMedia(e) && DecideSrc(p, SrcOf(e)).Rewrite?
    ensures r != [] ==> r[0] == DecideSrc(p, SrcOf(e)).path
  {
    if p.host.isMedia(e) && DecideSrc(p, SrcOf(e)).Rewrite? then [DecideSrc(p, SrcOf(e)).path] else []
  }

  /** Which pass, if any, `handleImages` runs for a behaviour: none for
      `untouched`, one that relativizes exactly for `relativized`. */
  function PassFor(b: Behaviour): (relativize: Option<bool>)
    ensures relativize.None? <==> b == Untouched
    ensures relativize == Some(true) <==> b == Relativized
    ensures relativize == Some(false) <==> b == Absolutized
  {
    match b
    case Relativized => Some(true)
    case Absolutized => Some(false)
    case Untouched => None
  }

  // ---------------------------------------------------------------------------
  // Properties of one decision

  /** A `src` is left alone exactly when it is absent or empty, or when its
      decoded form starts with a remote scheme or an install directory. */
  lemma LeaveIff(p: Pass, raw: Option<string>)
    ensures DecideSrc(p, raw).Leave? <==>
      !Truthy(raw) ||
      (DecodedSrc(p, raw.value).Some? &&
       (HasSchemePrefix(DecodedSrc(p, raw.value).value) || UnderInstallRoot(p.host, DecodedSrc(p, raw.value).value)))
  {
  }

  /** The pass throws on a `src` exactly when it is decoded and decoding fails. */
  lemma MalformedIff(p: Pass, raw: Option<string>)
    ensures DecideSrc(p, raw).MalformedUri? <==>
      Truthy(raw) && !p.usesPandoc && p.host.decodeUri(raw.value).None?
  {
  }

  /** A relative `src` that is not root-relative is resolved against the
      Markdown file's directory when there is a file path and kept as decoded
      otherwise; a root-relative one is kept when it names a file and is
      otherwise re-rooted under the project directory, when there is one. */
  lemma AbsolutizedPath(p: Pass, raw: Option<string>)
    requires !p.relativize && DecideSrc(p, raw).Rewrite?
    ensures var src := DecodedSrc(p, raw.value).value;
      (|src| == 0 || src[0] != '/' ==>
        DecideSrc(p, raw).path == if Truthy(p.filePath) then p.host.resolve(p.host.dirname(p.filePath.value), src) else src) &&
      (|src| > 0 && src[0] == '/' && p.host.isFile(src) ==> DecideSrc(p, raw).path == src) &&
      (|src| > 0 && src[0] == '/' && !p.host.isFile(src) ==>
        var root := p.host.projectRoot(if Truthy(p.filePath) then p.filePath.value else "");
        DecideSrc(p, raw).path == if root.Some? then p.host.join(root.value, src[1..]) else src)
  {
  }

  /** Relativizing and absolutizing agree on which images they touch and on
      failures; where both rewrite, the relativized path is the path from the
      base directory (the save path's, else the Markdown file's) to the
      absolutized one. */
  lemma RelativizedFromAbsolutized(p: Pass, raw: Option<string>)
    ensures var abs := DecideSrc(p.(relativize := false), raw);
      var rel := DecideSrc(p.(relativize := true), raw);
      (abs.Leave? <==> rel.Leave?) && (abs.MalformedUri? <==> rel.MalformedUri?) &&
      (abs.Rewrite? ==>
        rel.Rewrite? &&
        rel.path == if RelativeBase(p).Some? then p.host.relative(RelativeBase(p).value, abs.path) else abs.path)
  {
    assert RelativeBase(p.(relativize := false)) == RelativeBase(p) == RelativeBase(p.(relativize := true));
    if Truthy(raw) && DecodedSrc(p, raw.value).Some? {
      var src := DecodedSrc(p, raw.value).value;
      assert ResolvedPath(p.(relativize := false), src) == ResolvedPath(p.(relativize := true), src);
    }
  }

  // ---------------------------------------------------------------------------
  // Properties of a whole pass

  lemma {:induction false} WatchedPathsLength(p: Pass, es: seq<Element>)
    ensures |WatchedPaths(p, es)| <= |es|
    decreases |es|
  {
    if es != [] {
      WatchedPathsLength(p, es[..|es| - 1]);
    }
  }

  /** A pass changes nothing but `src` attributes of media elements it
      rewrites: no element is added, removed or reordered. */
  lemma PassChangesOnlySources(p: Pass, versions: Option<string -> Option<string>>, es: seq<Element>, i: nat)
    requires i < |es|
    ensures var r := ResolvedAll(p, versions, es)[i];
      r.name == es[i].name && r.depth == es[i].depth && r.text == es[i].text &&
      (forall a :: a in es[i].attrs && a != "src" ==> a in r.attrs && r.attrs[a] == es[i].attrs[a]) &&
      (r != es[i] ==> p.host.isMedia(es[i]) && DecideSrc(p, SrcOf(es[i])).Rewrite?)
  {
  }

  /** How many elements a pass gets through: the index of the first element it
      throws on, or all of them. */
  function PassLength(p: Pass, es: seq<Element>): (n: nat)
    ensures n <= |es|
    ensures forall j :: 0 <= j < n ==> !FailsOn(p, es[j])
    ensures n < |es| ==> FailsOn(p, es[n])
  {
    if es == [] then 0
    else if FailsOn(p, es[0]) then 0
    else 1 + PassLength(p, es[1..])
  }

  /** One more element of a pass: the resolved prefix grows by the element's
      resolution, and the watched paths by its rewritten path, if any. */
  lemma PassStep(p: Pass, versions: Option<string -> Option<string>>, es: seq<Element>, i: nat)
    requires i < |es|
    ensures ResolvedAll(p, versions, es[..i + 1]) + es[i + 1..] ==
      (ResolvedAll(p, versions, es[..i]) + es[i..])[i := ResolvedElement(p, versions, es[i])]
    ensures WatchedPaths(p, es[..i + 1]) == WatchedPaths(p, es[..i]) + RewrittenPath(p, es[i])
  {
    assert es[..i + 1][..i] == es[..i];
    var a := ResolvedAll(p, versions, es[..i + 1]) + es[i + 1..];
    var b := (ResolvedAll(p, versions, es[..i]) + es[i..])[i := ResolvedElement(p, versions, es[i])];
    assert |a| == |b|;
    forall k | 0 <= k < |a| ensures a[k] == b[k] {
      if k < i {
        assert a[k] == ResolvedElement(p, versions, es[k]);
      } else if k > i {
        assert a[k] == es[k];
      }
    }
  }

  /** `PassLength` is the only index that no earlier element fails on and that
      is the end or an element the pass fails on. */
  lemma {:induction false} PassLengthIs(p: Pass, es: seq<Element>, i: nat)
    requires i <= |es|
    requires forall j :: 0 <= j < i ==> !FailsOn(p, es[j])
    requires i == |es| || FailsOn(p, es[i])
    ensures PassLength(p, es) == i
  {
    if i > 0 {
      assert !FailsOn(p, es[0]);
      assert forall j :: 0 <= j < i - 1 ==> es[1..][j] == es[j + 1];
      PassLengthIs(p, es[1..], i - 1);
    }
  }

  /** `es` is `original` after its first `i` elements were visited without
      a failure. */
  predicate Resolving(p: Pass, versions: Option<string -> Option<string>>, original: seq<Element>, i: nat, es: seq<Element>)
  {
    i <= PassLength(p, original) &&
    es == ResolvedAll(p, versions, original[..i]) + original[i..]
  }

  /** `ws` is the watched list `before` extended by the paths of the first `i`
      elements of `original`. */
  predicate Watching(p: Pass, original: seq<Element>, i: nat, before: seq<string>, ws: seq<string>)
  {
    i <= |original| && ws == before + WatchedPaths(p, original[..i])
  }

  lemma ResolvingAdvance(p: Pass, versions: Option<string -> Option<string>>, original: seq<Element>, i: nat,
                         es: seq<Element>, es': seq<Element>)
    requires i < |original| && Resolving(p, versions, original, i, es)
    requires !FailsOn(p, es[i]) && es' == es[i := ResolvedElement(p, versions, es[i])]
    ensures Resolving(p, versions, original, i + 1, es')
  {
    PassStep(p, versions, original, i);
    assert es[i] == original[i];
    assert PassLength(p, original) != i;
  }

  lemma WatchingAdvance(p: Pass, original: seq<Element>, i: nat, before: seq<string>,
                        ws: seq<string>, ws': seq<string>)
    requires i < |original| && Watching(p, original, i, before, ws)
    requires ws' == ws + RewrittenPath(p, original[i])
    ensures Watching(p, original, i + 1, before, ws')
  {
    assert original[..i + 1][..i] == original[..i];
  }

  lemma PassStopped(p: Pass, versions: Option<string -> Option<string>>, original: seq<Element>, i: nat, es: seq<Element>)
    requires i < |original| && Resolving(p, versions, original, i, es) && FailsOn(p, es[i])
    ensures PassLength(p, original) == i < |original|
    ensures es == ResolvedAll(p, versions, original[..i]) + original[i..]
  {
    assert es[i] == original[i];
  }

  lemma PassFinished(p: Pass, versions: Option<string -> Option<string>>, original: seq<Element>, es: seq<Element>)
    requires Resolving(p, versions, original, |original|, es)
    ensures PassLength(p, original) == |original|
    ensures es == ResolvedAll(p, versions, original[..|original|]) + original[|original|..]
    ensures WatchedPaths(p, original[..|original|]) == WatchedPaths(p, original)
  {
    assert original[..|original|] == original;
  }
}
