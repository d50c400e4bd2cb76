/** `sanitize`: the security pass over the backend's HTML. Every `script`
    element whose `type` does not begin with `math/tex` is removed (the
    selector `script:not([type^='math/tex'])`), and with it everything inside
    it; then a fixed list of inline event-handler attributes is removed from
    every remaining element.

    `Sanitized` is the functional specification; the in-place method is
    `Document.Sanitize`. `Removed` says declaratively which elements go, and
    `Survivors` is the document filtered by it. */
module Sanitizer {
  import opened Html

  /** The attributes `sanitize` removes, in the order of its list. There are 22;
      double-click appears as `ondbclick`, so `ondblclick` is not among them. */
  const EventAttributes: seq<string> := [
    "onabort", "onblur", "onchange", "onclick", "ondbclick", "onerror",
    "onfocus", "onkeydown", "onkeypress", "onkeyup", "onload", "onmousedown",
    "onmousemove", "onmouseover", "onmouseout", "onmouseup", "onreset",
    "onresize", "onscroll", "onselect", "onsubmit", "onunload"
  ]

  /** A script the selector picks. In an HTML document the value of `type` is
      matched without regard to ASCII case. */
  predicate IsUnsafeScript(e: Element)
  {
    e.name == "script" && !("type" in e.attrs && StartsWithIgnoreCase(e.attrs["type"], "math/tex"))
  }

  /** The elements the first pass keeps from index `i` on, for an `i` outside
      every removed subtree: removing a script removes its whole subtree. */
  function KeptFrom(es: seq<Element>, i: nat): seq<Element>
    requires i <= |es|
    decreases |es| - i
  {
    if i == |es| then []
    else if IsUnsafeScript(es[i]) then KeptFrom(es, SubtreeEnd(es, i, i + 1))
    else [es[i]] + KeptFrom(es, i + 1)
  }

  /** The elements that survive the first pass, in document order. */
  function WithoutUnsafeScripts(es: seq<Element>): seq<Element>
  {
    KeptFrom(es, 0)
  }

  /** One element after the second pass. */
  function StripEventHandlers(e: Element): (r: Element)
    ensures r.name == e.name && r.depth == e.depth && r.text == e.text
    ensures forall a :: a in r.attrs <==> a in e.attrs && a !in EventAttributes
    ensures forall a :: a in r.attrs ==> r.attrs[a] == e.attrs[a]
  {
    e.(attrs := e.attrs - (set a | a in EventAttributes))
  }

  /** The second pass over every element. */
  function StripAll(es: seq<Element>): (r: seq<Element>)
    ensures |r| == |es|
  {
    seq(|es|, i requires 0 <= i < |es| => StripEventHandlers(es[i]))
  }

  /** The document after `sanitize`. */
  function Sanitized(es: seq<Element>): seq<Element>
  {
    StripAll(WithoutUnsafeScripts(es))
  }

  // ---------------------------------------------------------------------------
  // Which elements the first pass removes

  /** Element `k` is an unsafe script or lies inside one. */
  ghost predicate Removed(es: seq<Element>, k: nat)
    requires k < |es|
  {
    exists j :: 0 <= j <= k && IsUnsafeScript(es[j]) && k < SubtreeEnd(es, j, j + 1)
  }

  /** The elements from `i` on that are not removed, in document order. */
  ghost function Survivors(es: seq<Element>, i: nat): seq<Element>
    requires i <= |es|
    decreases |es| - i
  {
    if i == |es| then [] else (if Removed(es, i) then [] else [es[i]]) + Survivors(es, i + 1)
  }

  /** The number of removed elements from `i` on. */
  ghost function RemovedCount(es: seq<Element>, i: nat): nat
    requires i <= |es|
    decreases |es| - i
  {
    if i == |es| then 0 else (if Removed(es, i) then 1 else 0) + RemovedCount(es, i + 1)
  }

  /** No subtree of an unsafe script before `i` reaches `i` or beyond. */
  predicate OutsideRemoved(es: seq<Element>, i: nat)
    requires i <= |es|
  {
    forall j :: 0 <= j < i && IsUnsafeScript(es[j]) ==> SubtreeEnd(es, j, j + 1) <= i
  }

  /** Elements that are all removed contribute no survivor. */
  lemma {:induction false} SkipRemoved(es: seq<Element>, i: nat, e: nat)
    requires i <= e <= |es|
    requires forall k :: i <= k < e ==> Removed(es, k)
    ensures Survivors(es, i) == Survivors(es, e)
    decreases e - i
  {
    if i < e {
      SkipRemoved(es, i + 1, e);
    }
  }

  lemma {:induction false} KeptFromIsSurvivors(es: seq<Element>, i: nat)
    requires i <= |es| && OutsideRemoved(es, i)
    ensures KeptFrom(es, i) == Survivors(es, i)
    decreases |es| - i
  {
    if i < |es| {
      if IsUnsafeScript(es[i]) {
        var e := SubtreeEnd(es, i, i + 1);
        forall k | i <= k < e ensures Removed(es, k) {
          assert IsUnsafeScript(es[i]) && k < SubtreeEnd(es, i, i + 1);
        }
        SkipRemoved(es, i, e);
        forall j | 0 <= j < e && IsUnsafeScript(es[j]) ensures SubtreeEnd(es, j, j + 1) <= e {
          if i < j {
            NestedSubtreeEnd(es, i, j);
          }
        }
        KeptFromIsSurvivors(es, e);
      } else {
        assert !Removed(es, i);
        KeptFromIsSurvivors(es, i + 1);
      }
    }
  }

  /** The first pass keeps exactly the elements that are neither an unsafe
      script nor inside one, in document order. */
  lemma WithoutUnsafeScriptsIsSurvivors(es: seq<Element>)
    ensures WithoutUnsafeScripts(es) == Survivors(es, 0)
  {
    KeptFromIsSurvivors(es, 0);
  }

  /** The elements of es[i..] whose flag is not set, in order. */
  function Unflagged(es: seq<Element>, flags: seq<bool>, i: nat): seq<Element>
    requires i <= |es| == |flags|
    decreases |es| - i
  {
    if i == |es| then [] else (if flags[i] then [] else [es[i]]) + Unflagged(es, flags, i + 1)
  }

  lemma {:induction false} UnflaggedMembers(es: seq<Element>, flags: seq<bool>, i: nat, x: Element)
    requires i <= |es| == |flags|
    ensures x in Unflagged(es, flags, i) <==> exists k :: i <= k < |es| && !flags[k] && es[k] == x
    decreases |es| - i
  {
    if i < |es| {
      UnflaggedMembers(es, flags, i + 1, x);
      var head := if flags[i] then [] else [es[i]];
      assert Unflagged(es, flags, i) == head + Unflagged(es, flags, i + 1);
      if exists k :: i <= k < |es| && !flags[k] && es[k] == x {
        var k :| i <= k < |es| && !flags[k] && es[k] == x;
        if k == i {
          assert x in head;
        } else {
          assert i + 1 <= k < |es| && !flags[k] && es[k] == x;
        }
      }
    }
  }

  /** Which elements are removed, one flag per element. */
  ghost function RemovedFlags(es: seq<Element>): (r: seq<bool>)
    ensures |r| == |es| && forall k :: 0 <= k < |es| ==> r[k] == Removed(es, k)
  {
    seq(|es|, k requires 0 <= k < |es| => Removed(es, k))
  }

  lemma {:induction false} SurvivorsUnflagged(es: seq<Element>, i: nat)
    requires i <= |es|
    ensures Survivors(es, i) == Unflagged(es, RemovedFlags(es), i)
    decreases |es| - i
  {
    if i < |es| {
      SurvivorsUnflagged(es, i + 1);
    }
  }

  /** An unsafe script is itself removed. */
  lemma UnsafeScriptRemoved(es: seq<Element>, k: nat)
    requires k < |es|
    ensures IsUnsafeScript(es[k]) ==> Removed(es, k)
  {
    assert k < SubtreeEnd(es, k, k + 1);
  }

  /** The elements after `sanitize` are exactly the elements that are not
      removed with an unsafe script, each with the listed attributes removed:
      every `math/tex` script, and every element outside an unsafe script, is
      kept. */
  lemma SanitizedMembers(es: seq<Element>, x: Element)
    ensures x in Sanitized(es) <==>
      exists k :: 0 <= k < |es| && !Removed(es, k) && x == StripEventHandlers(es[k])
  {
    WithoutUnsafeScriptsIsSurvivors(es);
    SurvivorsUnflagged(es, 0);
    var kept := WithoutUnsafeScripts(es);
    var flags := RemovedFlags(es);
    if x in Sanitized(es) {
      var i :| 0 <= i < |kept| && Sanitized(es)[i] == x;
      UnflaggedMembers(es, flags, 0, kept[i]);
      var k :| 0 <= k < |es| && !flags[k] && es[k] == kept[i];
      assert 0 <= k < |es| && !Removed(es, k) && x == StripEventHandlers(es[k]);
    }
    if exists k :: 0 <= k < |es| && !Removed(es, k) && x == StripEventHandlers(es[k]) {
      var k :| 0 <= k < |es| && !Removed(es, k) && x == StripEventHandlers(es[k]);
      UnflaggedMembers(es, flags, 0, es[k]);
      assert !flags[k];
      var i :| 0 <= i < |kept| && kept[i] == es[k];
      assert Sanitized(es)[i] == x;
    }
  }

  /** After `sanitize`, no element is a script whose type does not begin with
      `math/tex`, and no element carries a listed attribute. */
  lemma SanitizedIsSafe(es: seq<Element>)
    ensures forall x :: x in Sanitized(es) ==>
      !IsUnsafeScript(x) && forall a :: a in EventAttributes ==> a !in x.attrs
  {
    forall x | x in Sanitized(es)
      ensures !IsUnsafeScript(x) && forall a :: a in EventAttributes ==> a !in x.attrs
    {
      SanitizedMembers(es, x);
      var k :| 0 <= k < |es| && !Removed(es, k) && x == StripEventHandlers(es[k]);
      UnsafeScriptRemoved(es, k);
      StripKeepsScriptKind(es[k]);
    }
  }

  lemma {:induction false} SurvivorsLength(es: seq<Element>, i: nat)
    requires i <= |es|
    ensures RemovedCount(es, i) <= |es| - i
    ensures |Survivors(es, i)| == |es| - i - RemovedCount(es, i)
    decreases |es| - i
  {
    if i < |es| {
      SurvivorsLength(es, i + 1);
    }
  }

  /** `sanitize` removes exactly the unsafe scripts and the elements inside
      them. */
  lemma SanitizedLength(es: seq<Element>)
    ensures |Sanitized(es)| == |es| - RemovedCount(es, 0)
  {
    WithoutUnsafeScriptsIsSurvivors(es);
    SurvivorsLength(es, 0);
  }

  /** The number of unsafe scripts from `i` on. */
  function UnsafeCount(es: seq<Element>, i: nat): nat
    requires i <= |es|
    decreases |es| - i
  {
    if i == |es| then 0 else (if IsUnsafeScript(es[i]) then 1 else 0) + UnsafeCount(es, i + 1)
  }

  /** When no unsafe script contains an element (an HTML `script` holds only
      text), exactly one element is removed per unsafe script. */
  lemma ChildlessScriptsLength(es: seq<Element>)
    requires forall j :: 0 <= j < |es| && IsUnsafeScript(es[j]) ==> SubtreeEnd(es, j, j + 1) == j + 1
    ensures |Sanitized(es)| == |es| - UnsafeCount(es, 0)
  {
    SanitizedLength(es);
    CountsAgree(es, 0);
  }

  lemma {:induction false} CountsAgree(es: seq<Element>, i: nat)
    requires i <= |es|
    requires forall j :: 0 <= j < |es| && IsUnsafeScript(es[j]) ==> SubtreeEnd(es, j, j + 1) == j + 1
    ensures RemovedCount(es, i) == UnsafeCount(es, i)
    decreases |es| - i
  {
    if i < |es| {
      UnsafeScriptRemoved(es, i);
      CountsAgree(es, i + 1);
    }
  }

  /** Stripping preserves whether an element is an unsafe script, since `type`
      is not a listed attribute. */
  lemma StripKeepsScriptKind(e: Element)
    ensures IsUnsafeScript(StripEventHandlers(e)) == IsUnsafeScript(e)
  {
    assert "type" !in EventAttributes;
  }

  /** A document without unsafe scripts goes through the first pass whole. */
  lemma {:induction false} KeptWhenNoUnsafe(es: seq<Element>, i: nat)
    requires i <= |es|
    requires forall k :: i <= k < |es| ==> !IsUnsafeScript(es[k])
    ensures KeptFrom(es, i) == es[i..]
    decreases |es| - i
  {
    if i < |es| {
      KeptWhenNoUnsafe(es, i + 1);
      assert es[i..] == [es[i]] + es[i + 1..];
    }
  }

  /** Sanitizing a sanitized document changes nothing. */
  lemma SanitizedIdempotent(es: seq<Element>)
    ensures Sanitized(Sanitized(es)) == Sanitized(es)
  {
    var s := Sanitized(es);
    SanitizedIsSafe(es);
    forall k | 0 <= k < |s| ensures !IsUnsafeScript(s[k]) {
      assert s[k] in s;
    }
    KeptWhenNoUnsafe(s, 0);
    assert s[0..] == s;
    forall k | 0 <= k < |s| ensures StripEventHandlers(s[k]) == s[k] {
      assert s[k] == StripEventHandlers(WithoutUnsafeScripts(es)[k]);
    }
  }

  /** A double-click handler survives `sanitize`, because the list spells it
      `ondbclick`; an `onclick` handler does not. */
  lemma DoubleClickHandlerSurvives(e: Element)
    requires "ondblclick" in e.attrs && "onclick" in e.attrs
    ensures StripEventHandlers(e).attrs["ondblclick"] == e.attrs["ondblclick"]
    ensures "onclick" !in StripEventHandlers(e).attrs
  {
    assert EventAttributes[3] == "onclick";
  }

  /** A `math/tex` script is kept and a script without a type is removed. */
  lemma MathScriptKeptOtherScriptRemoved()
    ensures var math := Element("script", map["type" := "math/tex"], 0, "x");
      var other := Element("script", map[], 0, "alert(1)");
      Sanitized([math, other]) == [math]
  {
    var math := Element("script", map["type" := "math/tex"], 0, "x");
    var other := Element("script", map[], 0, "alert(1)");
    var es := [math, other];
    assert StartsWithIgnoreCase(math.attrs["type"], "math/tex");
    assert !IsUnsafeScript(math) && IsUnsafeScript(other);
    assert SubtreeEnd(es, 1, 2) == 2;
    assert KeptFrom(es, 1) == [];
    assert WithoutUnsafeScripts(es) == [math];
    assert "type" !in EventAttributes;
    assert StripEventHandlers(math).attrs == math.attrs;
  }

  /** A script inside an `svg` element can hold elements of its own; they go
      with it, and only the `svg` remains. */
  lemma ScriptSubtreeRemoved()
    ensures var svg := Element("svg", map[], 0, "");
      var script := Element("script", map[], 1, "");
      var rect := Element("rect", map[], 2, "");
      Sanitized([svg, script, rect]) == [svg]
  {
    var svg := Element("svg", map[], 0, "");
    var script := Element("script", map[], 1, "");
    var rect := Element("rect", map[], 2, "");
    var es := [svg, script, rect];
    assert IsUnsafeScript(script) && !IsUnsafeScript(svg);
    assert SubtreeEnd(es, 1, 3) == 3;
    assert SubtreeEnd(es, 1, 2) == 3;
    assert KeptFrom(es, 1) == [];
    assert WithoutUnsafeScripts(es) == [svg];
    assert StripEventHandlers(svg).attrs == svg.attrs;
  }
}
