/**
 * `getColorAtPoint` of content.js: given the element the browser reports at
 * a point, find the colour shown there by a first-match-wins search over
 * three phases:
 *   1. the element's own computed `backgroundColor`, `color`, `borderColor`
 *      and `outlineColor`;
 *   2. a walk from the element itself up its `parentElement` chain, trying
 *      at every SVG shape the `fill` and `stroke` attributes and then the
 *      computed `fill` and `stroke`;
 *   3. a walk from the element's parent upward, trying each computed
 *      `backgroundColor`.
 * The search is specified as the list of every candidate colour string in
 * that order (`Candidates`); the result is the first candidate that passes
 * its skip rule and parses.
 */
module PointResolver {
  import opened Options
  import opened DomTree
  import opened ColorParser
  import opened CssText
  import opened SeqFacts

  /** Where a candidate colour string was read from. */
  datatype Source =
    | OwnStyle(property: string)
    | FillAttribute
    | StrokeAttribute
    | FillStyle
    | StrokeStyle
    | ParentBackground

  datatype Candidate = Candidate(element: Id, source: Source, value: string)

  /** The own computed-style properties, in the order they are tried. */
  const OwnProperties: seq<string> := ["backgroundColor", "color", "borderColor", "outlineColor"]

  /** Tag names of the SVG elements whose paint is examined (compared case-sensitively). */
  predicate IsSvgTag(tag: string) {
    tag == "svg" || tag == "path" || tag == "rect" || tag == "circle" || tag == "ellipse" || tag == "polygon"
  }

  /**
   * The skip rule of phases 1 and 3: the value is non-empty and is neither
   * the keyword `transparent` nor the exact text `rgba(0, 0, 0, 0)`.
   */
  predicate ShowsColor(value: string) {
    value != "" && value != "transparent" && value != "rgba(0, 0, 0, 0)"
  }

  /** The skip rule of phase 2: the value is non-empty and is not `none`. */
  predicate IsPaint(value: string) {
    value != "" && value != "none"
  }

  predicate PassesSkipRule(c: Candidate) {
    match c.source
    case OwnStyle(_) => ShowsColor(c.value)
    case ParentBackground => ShowsColor(c.value)
    case _ => IsPaint(c.value)
  }

  /**
   * `parseColor` with the host's canonicaliser fixed. The search below is
   * stated for any parse function and used with this one.
   */
  function Parser(canon: string -> string): string -> Option<Rgb> {
    s => ParseColor(s, canon)
  }

  /** The colour a candidate contributes: none when it is skipped or does not parse. */
  function Accept(c: Candidate, parse: string -> Option<Rgb>): Option<Rgb> {
    if PassesSkipRule(c) then parse(c.value) else None
  }

  predicate AllRejected(cs: seq<Candidate>, parse: string -> Option<Rgb>) {
    forall j {:trigger Accept(cs[j], parse)} :: 0 <= j < |cs| ==> Accept(cs[j], parse).None?
  }

  // ---------------------------------------------------------------------
  // The candidates, in search order
  // ---------------------------------------------------------------------

  function OwnCandidate(doc: Document, id: Id, property: string): Candidate
    requires id in doc.elements
  {
    Candidate(id, OwnStyle(property), ComputedStyle(doc, id, property))
  }

  /** Phase 1: the element's own four computed colours. */
  function OwnCandidates(doc: Document, id: Id): (cs: seq<Candidate>)
    requires id in doc.elements
    ensures |cs| == |OwnProperties|
    ensures forall i :: 0 <= i < |cs| ==> cs[i] == OwnCandidate(doc, id, OwnProperties[i])
  {
    [OwnCandidate(doc, id, OwnProperties[0]), OwnCandidate(doc, id, OwnProperties[1]),
     OwnCandidate(doc, id, OwnProperties[2]), OwnCandidate(doc, id, OwnProperties[3])]
  }

  /** Phase 2 at one element: fill and stroke attributes, then computed fill and stroke. */
  function SvgCandidates(doc: Document, id: Id): seq<Candidate>
    requires id in doc.elements
  {
    if IsSvgTag(doc.elements[id].tag) then
      [Candidate(id, FillAttribute, Attribute(doc, id, "fill")),
       Candidate(id, StrokeAttribute, Attribute(doc, id, "stroke")),
       Candidate(id, FillStyle, ComputedStyle(doc, id, "fill")),
       Candidate(id, StrokeStyle, ComputedStyle(doc, id, "stroke"))]
    else []
  }

  /** Phase 2 along a chain of elements; only SVG elements of the chain contribute. */
  function SvgPhase(doc: Document, chain: seq<Id>): seq<Candidate>
    requires forall i :: 0 <= i < |chain| ==> chain[i] in doc.elements
  {
    if chain == [] then [] else SvgCandidates(doc, chain[0]) + SvgPhase(doc, chain[1..])
  }

  function BackgroundCandidate(doc: Document, id: Id): Candidate
    requires id in doc.elements
  {
    Candidate(id, ParentBackground, ComputedStyle(doc, id, "backgroundColor"))
  }

  /** Phase 3 along a chain of elements: one background per element, in chain order. */
  function BackgroundPhase(doc: Document, chain: seq<Id>): seq<Candidate>
    requires forall i :: 0 <= i < |chain| ==> chain[i] in doc.elements
  {
    if chain == [] then [] else [BackgroundCandidate(doc, chain[0])] + BackgroundPhase(doc, chain[1..])
  }

  /**
   * Every candidate of the search from element `id`, in order: its own
   * colours, the SVG paints from `id` itself upward, the backgrounds from
   * its parent upward.
   */
  function Candidates(doc: Document, id: Id): seq<Candidate>
    requires Valid(doc) && id in doc.elements
  {
    var chain := Ancestry(doc, id);
    OwnCandidates(doc, id) + SvgPhase(doc, chain) + BackgroundPhase(doc, chain[1..])
  }

  /** The colour of the first candidate that contributes one; none when every candidate is rejected. */
  function FirstColor(cs: seq<Candidate>, parse: string -> Option<Rgb>): Option<Rgb> {
    if cs == [] then None
    else if Accept(cs[0], parse).Some? then Accept(cs[0], parse)
    else FirstColor(cs[1..], parse)
  }

  /**
   * The candidates a first-match search puts to the skip rule and the parser:
   * `cs` up to and including the first candidate that contributes a colour,
   * or all of `cs` when none does. A value the source reads but never tries
   * (the stroke attribute when the fill attribute wins) is not among them.
   */
  function Examine(cs: seq<Candidate>, parse: string -> Option<Rgb>): seq<Candidate> {
    if cs == [] then []
    else if Accept(cs[0], parse).Some? then [cs[0]]
    else [cs[0]] + Examine(cs[1..], parse)
  }

  /**
   * The search finds nothing exactly when every candidate is rejected, and
   * otherwise stops at the first candidate that is not: everything it
   * examined before that one was rejected, and nothing after it was examined.
   */
  lemma {:induction false} FirstMatch(cs: seq<Candidate>, parse: string -> Option<Rgb>)
    ensures FirstColor(cs, parse).None? <==> AllRejected(cs, parse)
    ensures var e := Examine(cs, parse);
      |e| <= |cs| && e == cs[..|e|] &&
      (FirstColor(cs, parse).None? ==> e == cs) &&
      (FirstColor(cs, parse).Some? ==>
         e != [] && Accept(e[|e| - 1], parse) == FirstColor(cs, parse) && AllRejected(e[..|e| - 1], parse))
  {
    if cs != [] && Accept(cs[0], parse).None? {
      var rest := cs[1..];
      FirstMatch(rest, parse);
      var e := Examine(cs, parse);
      assert e == [cs[0]] + Examine(rest, parse);
      assert cs == [cs[0]] + rest;
      if FirstColor(cs, parse).Some? {
        assert e[..|e| - 1] == [cs[0]] + Examine(rest, parse)[..|e| - 2];
      } else {
        forall j | 0 <= j < |cs| ensures Accept(cs[j], parse).None? {
          if j > 0 { assert cs[j] == rest[j - 1]; }
        }
      }
      if AllRejected(cs, parse) {
        assert forall j :: 0 <= j < |rest| ==> rest[j] == cs[j + 1];
      }
    }
  }

  /** What `getColorAtPoint` returns for the element `hit` found at the point. */
  function ColorAt(doc: Document, hit: Option<Id>, parse: string -> Option<Rgb>): Option<Rgb>
    requires Valid(doc) && (hit.Some? ==> hit.value in doc.elements)
  {
    if hit.None? then None else FirstColor(Candidates(doc, hit.value), parse)
  }

  /** The candidates `getColorAtPoint` examines, in the order it examines them. */
  function Examined(doc: Document, hit: Option<Id>, parse: string -> Option<Rgb>): seq<Candidate>
    requires Valid(doc) && (hit.Some? ==> hit.value in doc.elements)
  {
    if hit.None? then [] else Examine(Candidates(doc, hit.value), parse)
  }

  // ---------------------------------------------------------------------
  // First-match search over concatenated candidate lists
  // ---------------------------------------------------------------------

  /** Searching `a + b` finds the colour of `a` if it has one, and otherwise that of `b`. */
  lemma {:induction false} FirstColorAppend(a: seq<Candidate>, b: seq<Candidate>, parse: string -> Option<Rgb>)
    ensures FirstColor(a + b, parse) == OrElse(FirstColor(a, parse), FirstColor(b, parse))
  {
    if a == [] {
      assert a + b == b;
    } else {
      assert (a + b)[0] == a[0];
      assert (a + b)[1..] == a[1..] + b;
      FirstColorAppend(a[1..], b, parse);
    }
  }

  /** Searching `a + b` examines the candidates of `b` only when every candidate of `a` was rejected. */
  lemma {:induction false} ExamineAppend(a: seq<Candidate>, b: seq<Candidate>, parse: string -> Option<Rgb>)
    ensures Examine(a + b, parse) == if FirstColor(a, parse).Some? then Examine(a, parse) else a + Examine(b, parse)
  {
    if a == [] {
      assert a + b == b;
    } else {
      assert (a + b)[0] == a[0];
      assert (a + b)[1..] == a[1..] + b;
      ExamineAppend(a[1..], b, parse);
      if Accept(a[0], parse).None? {
        assert a + Examine(b, parse) == [a[0]] + (a[1..] + Examine(b, parse));
      }
    }
  }

  /** The search over `here + above` either ends inside `here` or goes on into `above`. */
  lemma Advance(here: seq<Candidate>, above: seq<Candidate>, parse: string -> Option<Rgb>)
    ensures FirstColor(here, parse).Some? ==>
      FirstColor(here + above, parse) == FirstColor(here, parse) && Examine(here + above, parse) == Examine(here, parse)
    ensures FirstColor(here, parse).None? ==>
      FirstColor(here + above, parse) == FirstColor(above, parse) &&
      Examine(here + above, parse) == Examine(here, parse) + Examine(above, parse)
  {
    FirstColorAppend(here, above, parse);
    ExamineAppend(here, above, parse);
    FirstMatch(here, parse);
  }

  /** After rejecting `examined`, the search goes on exactly as a search of `pending`. */
  lemma Resume(cs: seq<Candidate>, examined: seq<Candidate>, pending: seq<Candidate>, parse: string -> Option<Rgb>)
    requires cs == examined + pending && AllRejected(examined, parse)
    ensures FirstColor(cs, parse) == FirstColor(pending, parse)
    ensures Examine(cs, parse) == examined + Examine(pending, parse)
  {
    FirstMatch(examined, parse);
    FirstColorAppend(examined, pending, parse);
    ExamineAppend(examined, pending, parse);
  }

  // ---------------------------------------------------------------------
  // The search as the source runs it
  // ---------------------------------------------------------------------

  // The phase methods take `parse` for `parseColor`; `GetColorAtPoint`
  // passes them `Parser(canon)`.

  /** Phase 1: the `for (const prop of colorProperties)` loop. */
  method OwnStyleColor(doc: Document, element: Id, parse: string -> Option<Rgb>)
    returns (color: Option<Rgb>, ghost examined: seq<Candidate>)
    requires element in doc.elements
    ensures color == FirstColor(OwnCandidates(doc, element), parse)
    ensures examined == Examine(OwnCandidates(doc, element), parse)
  {
    ghost var cs := OwnCandidates(doc, element);
    examined := [];
    for i := 0 to |OwnProperties|
      invariant examined == cs[..i]
      invariant AllRejected(examined, parse)
    {
      var property := OwnProperties[i];
      var value := ComputedStyle(doc, element, property);
      ghost var c := Candidate(element, OwnStyle(property), value);
      assert cs[i] == c;
      TakeOneMore(cs, i);
      if ShowsColor(value) {
        var rgb := parse(value);
        if rgb.Some? {
          WinnerAt(cs, i, parse);
          return rgb, examined + [c];
        }
      }
      RejectedGrow(cs, i, parse);
      examined := examined + [c];
    }
    assert cs[..|OwnProperties|] == cs;
    FirstMatch(cs, parse);
    color := None;
  }

  /** A rejected candidate extends the all-rejected prefix before it. */
  lemma RejectedGrow(cs: seq<Candidate>, i: nat, parse: string -> Option<Rgb>)
    requires i < |cs| && AllRejected(cs[..i], parse) && Accept(cs[i], parse).None?
    ensures cs[..i + 1] == cs[..i] + [cs[i]]
    ensures AllRejected(cs[..i + 1], parse)
  {
    assert cs[..i + 1] == cs[..i] + [cs[i]];
    RejectedConcat(cs[..i], [cs[i]], parse);
  }

  /** Phase 2 at one SVG element: the four paint checks of the loop body. */
  method SvgElementColor(doc: Document, id: Id, parse: string -> Option<Rgb>)
    returns (color: Option<Rgb>, ghost examined: seq<Candidate>)
    requires id in doc.elements && IsSvgTag(doc.elements[id].tag)
    ensures color == FirstColor(SvgCandidates(doc, id), parse)
    ensures examined == Examine(SvgCandidates(doc, id), parse)
  {
    ghost var cs := SvgCandidates(doc, id);
    var fill := Attribute(doc, id, "fill");
    var stroke := Attribute(doc, id, "stroke");
    if IsPaint(fill) {
      color := parse(fill);
      if color.Some? {
        WinnerAt(cs, 0, parse);
        return color, cs[..1];
      }
    }
    RejectedGrow(cs, 0, parse);
    if IsPaint(stroke) {
      color := parse(stroke);
      if color.Some? {
        WinnerAt(cs, 1, parse);
        return color, cs[..2];
      }
    }
    RejectedGrow(cs, 1, parse);
    var fillStyle := ComputedStyle(doc, id, "fill");
    var strokeStyle := ComputedStyle(doc, id, "stroke");
    if IsPaint(fillStyle) {
      color := parse(fillStyle);
      if color.Some? {
        WinnerAt(cs, 2, parse);
        return color, cs[..3];
      }
    }
    RejectedGrow(cs, 2, parse);
    if IsPaint(strokeStyle) {
      color := parse(strokeStyle);
      if color.Some? {
        WinnerAt(cs, 3, parse);
        return color, cs;
      }
    }
    RejectedGrow(cs, 3, parse);
    assert cs[..4] == cs;
    FirstMatch(cs, parse);
    return None, cs;
  }

  /** Phase 2: the walk from the element itself up the `parentElement` chain. */
  method SvgColor(doc: Document, element: Id, parse: string -> Option<Rgb>)
    returns (color: Option<Rgb>, ghost examined: seq<Candidate>)
    requires Valid(doc) && element in doc.elements
    ensures color == FirstColor(SvgPhase(doc, Ancestry(doc, element)), parse)
    ensures examined == Examine(SvgPhase(doc, Ancestry(doc, element)), parse)
  {
    ghost var chain := Ancestry(doc, element);
    ghost var cs := SvgPhase(doc, chain);
    ghost var i: nat, k: nat := 0, 0;
    examined := [];
    var current := Some(element);
    while current.Some?
      invariant i <= |chain| && k <= |cs|
      invariant current == if i < |chain| then Some(chain[i]) else None
      invariant cs[k..] == SvgPhase(doc, chain[i..])
      invariant examined == cs[..k] && AllRejected(examined, parse)
      decreases |chain| - i
    {
      var id := current.value;
      AncestryLink(doc, element, i);
      SvgPhaseStep(doc, chain, i);
      var tag := doc.elements[id].tag;
      if IsSvgTag(tag) {
        ghost var here := SvgCandidates(doc, id);
        ghost var rest := SvgPhase(doc, chain[i + 1..]);
        var rgb, tried := SvgElementColor(doc, id, parse);
        if rgb.Some? {
          WinnerWithin(cs, k, here, rest, parse);
          return rgb, examined + tried;
        }
        RejectedWithin(cs, k, here, rest, parse);
        examined := examined + tried;
        k := k + |here|;
      }
      current := doc.elements[id].parent;
      i := i + 1;
    }
    assert chain[i..] == [];
    assert examined == cs;
    FirstMatch(cs, parse);
    color := None;
  }

  /** The search stops inside `here` when `here`, which follows the all-rejected `cs[..k]`, contributes a colour. */
  lemma WinnerWithin(cs: seq<Candidate>, k: nat, here: seq<Candidate>, rest: seq<Candidate>, parse: string -> Option<Rgb>)
    requires k <= |cs| && cs[k..] == here + rest && AllRejected(cs[..k], parse)
    requires FirstColor(here, parse).Some?
    ensures FirstColor(cs, parse) == FirstColor(here, parse)
    ensures Examine(cs, parse) == cs[..k] + Examine(here, parse)
  {
    assert cs == cs[..k] + (here + rest);
    Resume(cs, cs[..k], here + rest, parse);
    Advance(here, rest, parse);
  }

  /** When all of `here` is rejected, the all-rejected prefix grows over it. */
  lemma RejectedWithin(cs: seq<Candidate>, k: nat, here: seq<Candidate>, rest: seq<Candidate>, parse: string -> Option<Rgb>)
    requires k <= |cs| && cs[k..] == here + rest && AllRejected(cs[..k], parse)
    requires FirstColor(here, parse).None?
    ensures Examine(here, parse) == here
    ensures k + |here| <= |cs| && cs[..k + |here|] == cs[..k] + here && cs[k + |here|..] == rest
    ensures AllRejected(cs[..k + |here|], parse)
  {
    FirstMatch(here, parse);
    SplitThree(cs, k, here, rest);
    RejectedConcat(cs[..k], here, parse);
  }

  /** Phase 2 from the `i`-th element of a chain: that element's paints, then those above it. */
  lemma SvgPhaseStep(doc: Document, chain: seq<Id>, i: nat)
    requires forall j :: 0 <= j < |chain| ==> chain[j] in doc.elements
    requires i < |chain|
    ensures SvgPhase(doc, chain[i..]) == SvgCandidates(doc, chain[i]) + SvgPhase(doc, chain[i + 1..])
    ensures !IsSvgTag(doc.elements[chain[i]].tag) ==> SvgCandidates(doc, chain[i]) == []
  {
    assert chain[i..][1..] == chain[i + 1..];
  }

  /** Phase 3: the walk from the parent up the `parentElement` chain, trying backgrounds. */
  method ParentBackgroundColor(doc: Document, element: Id, parse: string -> Option<Rgb>)
    returns (color: Option<Rgb>, ghost examined: seq<Candidate>)
    requires Valid(doc) && element in doc.elements
    ensures color == FirstColor(BackgroundPhase(doc, Ancestry(doc, element)[1..]), parse)
    ensures examined == Examine(BackgroundPhase(doc, Ancestry(doc, element)[1..]), parse)
  {
    ghost var chain := Ancestry(doc, element);
    ghost var above := chain[1..];
    ghost var cs := BackgroundPhase(doc, above);
    BackgroundPhaseEntry(doc, above, 0);
    AncestryLink(doc, element, 0);
    examined := [];
    ghost var j := 0;
    var parent := doc.elements[element].parent;
    while parent.Some?
      invariant j <= |cs|
      invariant parent == if j < |cs| then Some(above[j]) else None
      invariant examined == cs[..j] && AllRejected(examined, parse)
      decreases |cs| - j
    {
      var id := parent.value;
      AncestryLink(doc, element, j + 1);
      BackgroundPhaseEntry(doc, above, j);
      TakeOneMore(cs, j);
      var background := ComputedStyle(doc, id, "backgroundColor");
      if ShowsColor(background) {
        var rgb := parse(background);
        if rgb.Some? {
          WinnerAt(cs, j, parse);
          return rgb, examined + [cs[j]];
        }
      }
      RejectedGrow(cs, j, parse);
      examined := examined + [cs[j]];
      parent := doc.elements[id].parent;
      j := j + 1;
    }
    assert examined == cs;
    FirstMatch(cs, parse);
    color := None;
  }

  /** Phase 3 has one candidate per element of the chain; the `i`-th is that element's background. */
  lemma BackgroundPhaseEntry(doc: Document, chain: seq<Id>, i: nat)
    requires forall j :: 0 <= j < |chain| ==> chain[j] in doc.elements
    ensures |BackgroundPhase(doc, chain)| == |chain|
    ensures i < |chain| ==> BackgroundPhase(doc, chain)[i] == BackgroundCandidate(doc, chain[i])
  {
    BackgroundPhaseAt(doc, chain);
  }

  /**
   * `getColorAtPoint(x, y)`. `hit` is what `document.elementFromPoint(x, y)`
   * returned; `canon` is the host's colour canonicaliser used by
   * `parseColor`. The ghost `examined` lists the candidates in the order
   * they are tried.
   */
  method GetColorAtPoint(doc: Document, hit: Option<Id>, canon: string -> string)
    returns (color: Option<Rgb>, ghost examined: seq<Candidate>)
    requires Valid(doc)
    requires hit.Some? ==> hit.value in doc.elements
    ensures hit.None? ==> color.None? && examined == []
    ensures color == ColorAt(doc, hit, Parser(canon))
    ensures examined == Examined(doc, hit, Parser(canon))
  {
    if hit.None? {
      return None, [];
    }
    var element := hit.value;
    ghost var parse := Parser(canon);
    ghost var chain := Ancestry(doc, element);
    ghost var own := OwnCandidates(doc, element);
    ghost var svg := SvgPhase(doc, chain);
    ghost var backgrounds := BackgroundPhase(doc, chain[1..]);
    FirstColorAppend(own + svg, backgrounds, parse);
    ExamineAppend(own + svg, backgrounds, parse);
    FirstColorAppend(own, svg, parse);
    ExamineAppend(own, svg, parse);
    FirstMatch(own, parse);
    FirstMatch(svg, parse);
    assert Candidates(doc, element) == own + svg + backgrounds;

    ghost var tried;
    color, examined := OwnStyleColor(doc, element, Parser(canon));
    if color.Some? {
      return;
    }
    color, tried := SvgColor(doc, element, Parser(canon));
    examined := examined + tried;
    if color.Some? {
      return;
    }
    color, tried := ParentBackgroundColor(doc, element, Parser(canon));
    examined := examined + tried;
  }

  // ---------------------------------------------------------------------
  // Properties of the search
  // ---------------------------------------------------------------------

  /** Splitting the SVG phase at the `i`-th element of the chain. */
  lemma SvgPhaseAt(doc: Document, chain: seq<Id>, i: nat)
    requires forall j :: 0 <= j < |chain| ==> chain[j] in doc.elements
    requires i < |chain|
    ensures SvgPhase(doc, chain) == SvgPhase(doc, chain[..i]) + SvgCandidates(doc, chain[i]) + SvgPhase(doc, chain[i + 1..])
  {
    var before, after := chain[..i], chain[i + 1..];
    Pivot(chain, i);
    SvgPhaseAppend(doc, before, [chain[i]] + after);
    SvgPhaseAppend(doc, [chain[i]], after);
    SvgPhaseSingle(doc, chain[i]);
    Regroup(SvgPhase(doc, before), SvgCandidates(doc, chain[i]), SvgPhase(doc, after));
  }

  lemma SvgPhaseSingle(doc: Document, id: Id)
    requires id in doc.elements
    ensures SvgPhase(doc, [id]) == SvgCandidates(doc, id)
  {
    assert [id][1..] == [];
  }

  /** Phase 2 along two chains, one after the other, is phase 2 along each in turn. */
  lemma {:induction false} SvgPhaseAppend(doc: Document, a: seq<Id>, b: seq<Id>)
    requires forall j :: 0 <= j < |a| ==> a[j] in doc.elements
    requires forall j :: 0 <= j < |b| ==> b[j] in doc.elements
    ensures SvgPhase(doc, a + b) == SvgPhase(doc, a) + SvgPhase(doc, b)
  {
    if a == [] {
      assert a + b == b;
    } else {
      assert (a + b)[1..] == a[1..] + b;
      SvgPhaseAppend(doc, a[1..], b);
    }
  }

  /** The SVG phase only ever examines elements of the chain whose tag is an SVG shape. */
  lemma {:induction false} SvgPhaseOnlySvgElements(doc: Document, chain: seq<Id>)
    requires forall j :: 0 <= j < |chain| ==> chain[j] in doc.elements
    ensures forall c | c in SvgPhase(doc, chain) :: c.element in chain && IsSvgTag(doc.elements[c.element].tag)
  {
    if chain != [] {
      SvgPhaseOnlySvgElements(doc, chain[1..]);
    }
  }

  /** The `i`-th background of phase 3 is that of the `i`-th element of the chain. */
  lemma {:induction false} BackgroundPhaseAt(doc: Document, chain: seq<Id>)
    requires forall j :: 0 <= j < |chain| ==> chain[j] in doc.elements
    ensures |BackgroundPhase(doc, chain)| == |chain|
    ensures forall i :: 0 <= i < |chain| ==> BackgroundPhase(doc, chain)[i] == BackgroundCandidate(doc, chain[i])
  {
    if chain != [] {
      BackgroundPhaseAt(doc, chain[1..]);
    }
  }

  /** Every element above `id` in its chain is strictly closer to the root. */
  lemma {:induction false} AncestryRises(doc: Document, id: Id)
    requires Valid(doc) && id in doc.elements
    ensures forall i :: 1 <= i < |Ancestry(doc, id)| ==>
      doc.elements[Ancestry(doc, id)[i]].depth < doc.elements[id].depth
    decreases doc.elements[id].depth
  {
    assert ParentIsCloserToRoot(doc, id);
    match doc.elements[id].parent
    case None =>
    case Some(p) =>
      AncestryRises(doc, p);
  }

  /** Two all-rejected lists, one after the other, are all rejected. */
  lemma RejectedConcat(a: seq<Candidate>, b: seq<Candidate>, parse: string -> Option<Rgb>)
    requires AllRejected(a, parse) && AllRejected(b, parse)
    ensures AllRejected(a + b, parse)
  {
    forall j | 0 <= j < |a + b| ensures Accept((a + b)[j], parse).None? {
      if j < |a| {
        assert (a + b)[j] == a[j];
      } else {
        assert (a + b)[j] == b[j - |a|];
      }
    }
  }

  /** Dropping the first candidate of an all-rejected list leaves an all-rejected list. */
  lemma RejectedTail(cs: seq<Candidate>, parse: string -> Option<Rgb>)
    requires cs != [] && AllRejected(cs, parse)
    ensures AllRejected(cs[1..], parse)
  {
    forall j | 0 <= j < |cs| - 1 ensures Accept(cs[1..][j], parse).None? {
      assert cs[1..][j] == cs[j + 1];
    }
  }

  /** When the candidate at `k` is the first that is not rejected, the search returns its colour and stops there. */
  lemma {:induction false} WinnerAt(cs: seq<Candidate>, k: nat, parse: string -> Option<Rgb>)
    requires k < |cs| && AllRejected(cs[..k], parse) && Accept(cs[k], parse).Some?
    ensures FirstColor(cs, parse) == Accept(cs[k], parse)
    ensures Examine(cs, parse) == cs[..k + 1]
  {
    if k > 0 {
      var rest := cs[1..];
      assert Accept(cs[..k][0], parse).None?;
      assert rest[..k - 1] == cs[..k][1..];
      RejectedTail(cs[..k], parse);
      assert rest[k - 1] == cs[k];
      WinnerAt(rest, k - 1, parse);
      assert cs[..k + 1] == [cs[0]] + rest[..k];
    }
  }

  /**
   * Phase 1 wins: when the own property at position `k` of
   * background/color/border/outline is the first one that passes the skip
   * rule and parses, that colour is returned, and no later property, SVG
   * element or ancestor background is tried.
   */
  lemma OwnStyleWins(doc: Document, e: Id, k: nat, parse: string -> Option<Rgb>)
    requires Valid(doc) && e in doc.elements && k < |OwnProperties|
    requires AllRejected(OwnCandidates(doc, e)[..k], parse)
    requires Accept(OwnCandidate(doc, e, OwnProperties[k]), parse).Some?
    ensures ColorAt(doc, Some(e), parse) == Accept(OwnCandidate(doc, e, OwnProperties[k]), parse)
    ensures Examined(doc, Some(e), parse) == OwnCandidates(doc, e)[..k + 1]
  {
    var own := OwnCandidates(doc, e);
    var cs := Candidates(doc, e);
    assert cs[..k] == own[..k] && cs[k] == own[k];
    assert cs[..k + 1] == own[..k + 1];
    WinnerAt(cs, k, parse);
  }

  /**
   * Phase 2 wins: when every own property is rejected, every SVG element
   * below the `i`-th element of the chain (the hit element being the 0-th)
   * had all four of its paints rejected, and the `k`-th paint of the
   * `i`-th element (fill attribute, stroke attribute, computed fill,
   * computed stroke) is the first of its paints to pass, that paint's colour
   * is returned and no ancestor background is tried.
   */
  lemma SvgPaintWins(doc: Document, e: Id, i: nat, k: nat, parse: string -> Option<Rgb>)
    requires Valid(doc) && e in doc.elements
    requires i < |Ancestry(doc, e)| && IsSvgTag(doc.elements[Ancestry(doc, e)[i]].tag) && k < 4
    requires AllRejected(OwnCandidates(doc, e), parse)
    requires AllRejected(SvgPhase(doc, Ancestry(doc, e)[..i]), parse)
    requires AllRejected(SvgCandidates(doc, Ancestry(doc, e)[i])[..k], parse)
    requires Accept(SvgCandidates(doc, Ancestry(doc, e)[i])[k], parse).Some?
    ensures ColorAt(doc, Some(e), parse) == Accept(SvgCandidates(doc, Ancestry(doc, e)[i])[k], parse)
    ensures Examined(doc, Some(e), parse) ==
      OwnCandidates(doc, e) + SvgPhase(doc, Ancestry(doc, e)[..i]) + SvgCandidates(doc, Ancestry(doc, e)[i])[..k + 1]
  {
    var chain := Ancestry(doc, e);
    var own := OwnCandidates(doc, e);
    var below := SvgPhase(doc, chain[..i]);
    var here := SvgCandidates(doc, chain[i]);
    var above := SvgPhase(doc, chain[i + 1..]);
    var backgrounds := BackgroundPhase(doc, chain[1..]);
    SvgPhaseAt(doc, chain, i);
    Regroup5(own, below, here, above, backgrounds);
    WinnerInside(own, below, here, above + backgrounds, k, parse);
  }

  /** The search over `front + middle + (group + after)` stops at the `k`-th candidate of `group`
      when everything before it is rejected and that candidate passes. */
  lemma WinnerInside(front: seq<Candidate>, middle: seq<Candidate>, group: seq<Candidate>, after: seq<Candidate>,
                     k: nat, parse: string -> Option<Rgb>)
    requires AllRejected(front, parse) && AllRejected(middle, parse)
    requires k < |group| && AllRejected(group[..k], parse) && Accept(group[k], parse).Some?
    ensures FirstColor(front + middle + (group + after), parse) == Accept(group[k], parse)
    ensures Examine(front + middle + (group + after), parse) == front + middle + group[..k + 1]
  {
    var back := group + after;
    RejectedConcat(front, middle, parse);
    assert back[..k] == group[..k] && back[k] == group[k];
    WinnerAt(back, k, parse);
    Resume(front + middle + back, front + middle, back, parse);
    assert back[..k + 1] == group[..k + 1];
  }

  /**
   * Phase 3 wins: when the own properties and every SVG paint are
   * rejected, and the backgrounds of the ancestors strictly between the hit
   * element and its `i`-th ancestor are too, the `i`-th ancestor's
   * background is returned if it passes. Phase 3 starts at the parent:
   * `i` is at least 1.
   */
  lemma ParentBackgroundWins(doc: Document, e: Id, i: nat, parse: string -> Option<Rgb>)
    requires Valid(doc) && e in doc.elements
    requires 1 <= i < |Ancestry(doc, e)|
    requires AllRejected(OwnCandidates(doc, e), parse)
    requires AllRejected(SvgPhase(doc, Ancestry(doc, e)), parse)
    requires forall j :: 1 <= j < i ==> Accept(BackgroundCandidate(doc, Ancestry(doc, e)[j]), parse).None?
    requires Accept(BackgroundCandidate(doc, Ancestry(doc, e)[i]), parse).Some?
    ensures ColorAt(doc, Some(e), parse) == Accept(BackgroundCandidate(doc, Ancestry(doc, e)[i]), parse)
  {
    var chain := Ancestry(doc, e);
    var front := OwnCandidates(doc, e) + SvgPhase(doc, chain);
    var backgrounds := BackgroundPhase(doc, chain[1..]);
    BackgroundPhaseAt(doc, chain[1..]);
    FirstMatch(OwnCandidates(doc, e), parse);
    FirstMatch(SvgPhase(doc, chain), parse);
    FirstColorAppend(OwnCandidates(doc, e), SvgPhase(doc, chain), parse);
    FirstColorAppend(front, backgrounds, parse);
    forall j | 0 <= j < i - 1 ensures Accept(backgrounds[j], parse).None? {
      assert chain[1..][j] == chain[j + 1];
    }
    assert AllRejected(backgrounds[..i - 1], parse);
    assert chain[1..][i - 1] == chain[i];
    WinnerAt(backgrounds, i - 1, parse);
  }

  /** Phase 3 never examines the hit element's own background: it starts strictly above it. */
  lemma BackgroundsStartAboveHit(doc: Document, e: Id)
    requires Valid(doc) && e in doc.elements
    ensures forall c | c in BackgroundPhase(doc, Ancestry(doc, e)[1..]) :: c.element != e && c.source == ParentBackground
  {
    var chain := Ancestry(doc, e);
    BackgroundPhaseAt(doc, chain[1..]);
    AncestryRises(doc, e);
    forall c | c in BackgroundPhase(doc, chain[1..]) ensures c.element != e && c.source == ParentBackground {
      var j :| 0 <= j < |chain[1..]| && BackgroundPhase(doc, chain[1..])[j] == c;
      assert chain[1..][j] == chain[j + 1];
    }
  }

  /**
   * `null` comes back exactly when there is no element at the point or
   * every candidate of all three phases is rejected; in the latter case
   * every candidate was tried, up to the root's background.
   */
  lemma NothingFound(doc: Document, hit: Option<Id>, parse: string -> Option<Rgb>)
    requires Valid(doc) && (hit.Some? ==> hit.value in doc.elements)
    ensures ColorAt(doc, hit, parse).None? <==> hit.None? || AllRejected(Candidates(doc, hit.value), parse)
    ensures hit.Some? && ColorAt(doc, hit, parse).None? ==> Examined(doc, hit, parse) == Candidates(doc, hit.value)
  {
    if hit.Some? {
      FirstMatch(Candidates(doc, hit.value), parse);
    }
  }

  /** When nothing is found, every ancestor's background (from the parent up to the root) failed. */
  lemma NothingFoundMeansNoAncestorBackground(doc: Document, e: Id, parse: string -> Option<Rgb>)
    requires Valid(doc) && e in doc.elements
    requires ColorAt(doc, Some(e), parse).None?
    ensures forall i :: 1 <= i < |Ancestry(doc, e)| ==>
      Accept(BackgroundCandidate(doc, Ancestry(doc, e)[i]), parse).None?
  {
    var chain := Ancestry(doc, e);
    var front := OwnCandidates(doc, e) + SvgPhase(doc, chain);
    var backgrounds := BackgroundPhase(doc, chain[1..]);
    NothingFound(doc, Some(e), parse);
    BackgroundPhaseAt(doc, chain[1..]);
    forall i | 1 <= i < |chain| ensures Accept(BackgroundCandidate(doc, chain[i]), parse).None? {
      assert (front + backgrounds)[|front| + i - 1] == backgrounds[i - 1];
    }
  }

  // ---------------------------------------------------------------------
  // The skip rules compare literal strings
  // ---------------------------------------------------------------------

  /**
   * Phases 1 and 3 skip only the empty string, the keyword `transparent`
   * and the exact text `rgba(0, 0, 0, 0)`: any other zero-alpha spelling,
   * such as `rgba(255, 0, 0, 0)` or `rgba(0,0,0,0)`, is handed to the parser.
   */
  lemma TransparencyIsLiteral(e: Id, property: string, parse: string -> Option<Rgb>)
    ensures Accept(Candidate(e, OwnStyle(property), "rgba(0, 0, 0, 0)"), parse).None?
    ensures Accept(Candidate(e, ParentBackground, "transparent"), parse).None?
    ensures Accept(Candidate(e, OwnStyle(property), ""), parse).None?
    ensures Accept(Candidate(e, OwnStyle(property), "rgba(255, 0, 0, 0)"), parse) == parse("rgba(255, 0, 0, 0)")
    ensures Accept(Candidate(e, ParentBackground, "rgba(0,0,0,0)"), parse) == parse("rgba(0,0,0,0)")
  {
  }

  /** Phase 2 skips only empty values and `none`; `transparent` is handed to the parser. */
  lemma SvgSkipRule(e: Id, parse: string -> Option<Rgb>)
    ensures Accept(Candidate(e, FillAttribute, "none"), parse).None?
    ensures Accept(Candidate(e, StrokeStyle, ""), parse).None?
    ensures Accept(Candidate(e, FillAttribute, "transparent"), parse) == parse("transparent")
  {
  }
}
