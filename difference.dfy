/** The recursive difference walk `subtractGeojsons` (src/index.js:123-174)
    as specification functions, with the properties it promises.

    A Polygon or MultiPolygon minuend is folded over the subtrahends in list
    order; every other minuend is rebuilt around its reduced children. The
    geometry itself is computed by two external library calls, which the
    model receives as parameters and never inspects. */
module Difference {
  import opened Wrappers
  import opened GeoJson

  /** The external geometry library: `difference` is `turfDifference(m, s)`
      (a Feature or null) followed by taking its geometry, and `rewind` is
      `turfRewind` on that geometry. */
  datatype Turf = Turf(difference: (Node, Node) -> Option<Node>, rewind: Node -> Node)

  /** A reduced node (`None` is null, i.e. annihilated) and the warnings
      emitted while reducing it, in order. */
  datatype Outcome = Outcome(node: Option<Node>, warnings: seq<string>)

  /** The non-null results of reducing the members of a collection. */
  datatype Survivors = Survivors(nodes: seq<Node>, warnings: seq<string>)

  /** The warning `checkSimpleType` emits for a non-polygonal geometry;
      `name` is "Minuend" or "A subtrahend". */
  function IgnoredWarning(name: string, kind: string): (w: string)
    ensures |w| == |name| + |kind| + 52
    ensures w[..|name|] == name && w[|name| + 41..|name| + 41 + |kind|] == kind
  {
    name + " includes simple Geojson object of type '" + kind + "'. Ignoring"
  }

  /** The warning names the kind it ignores: different kinds, different warnings. */
  lemma IgnoredWarningNamesKind(name: string, kind1: string, kind2: string)
    requires IgnoredWarning(name, kind1) == IgnoredWarning(name, kind2)
    ensures kind1 == kind2
  {
    var w := IgnoredWarning(name, kind1);
    assert kind1 == w[|name| + 41..|name| + 41 + |kind1|];
  }

  /** `subtractGeojsons(minuend, subtrahends)`. */
  function Subtract(m: Node, subs: seq<Node>, turf: Turf): (o: Outcome)
    decreases SizeOf(subs), Size(m), 2
    // only a Polygon/MultiPolygon can be annihilated, and nothing else becomes one
    ensures !IsOperand(m) ==> o.node.Some? && !IsOperand(o.node.value)
    // a non-polygonal geometry passes through after exactly one warning
    ensures m.Geometry? && !IsPolygonal(m.kind) ==>
              o == Outcome(Some(m), [IgnoredWarning("Minuend", m.kind)])
    // nothing to subtract: the node comes back as it was
    ensures subs == [] ==> o.node == Some(m)
    // containers keep their kind, and collections never grow
    ensures m.Feature? ==> o.node.Some? && o.node.value.Feature? && o.node.value.properties == m.properties
    // a Feature without geometry comes back as it was, with no warning
    ensures m.Feature? && m.geometry.None? ==> o == Outcome(Some(m), [])
    ensures m.GeometryCollection? ==>
              o.node.Some? && o.node.value.GeometryCollection? &&
              |o.node.value.geometries| <= |m.geometries|
    ensures m.FeatureCollection? ==>
              o.node.Some? && o.node.value.FeatureCollection? &&
              |o.node.value.features| <= |m.features|
  {
    match m
    case Geometry(kind, _) =>
      if !IsPolygonal(kind) then Outcome(Some(m), [IgnoredWarning("Minuend", kind)])
      else Fold(m, subs, turf)
    case Feature(g, props) =>
      if g.None? then Outcome(Some(m), [])
      else
        var o := Subtract(g.value, subs, turf);
        Outcome(Some(Feature(o.node, props)), o.warnings)
    case GeometryCollection(gs) =>
      var r := Survive(gs, subs, turf);
      Outcome(Some(GeometryCollection(r.nodes)), r.warnings)
    case FeatureCollection(fs) =>
      var r := Survive(fs, subs, turf);
      Outcome(Some(FeatureCollection(r.nodes)), r.warnings)
    case Opaque(_) => Outcome(Some(m), [])
  }

  /** The `subtrahends.some(...)` loop: apply the subtrahends in order to a
      running minuend, stopping at the first null. */
  function Fold(m: Node, subs: seq<Node>, turf: Turf): (o: Outcome)
    decreases SizeOf(subs), 0, 1
    ensures subs == [] ==> o == Outcome(Some(m), [])
  {
    if subs == [] then Outcome(Some(m), [])
    else
      var first := Step(m, subs[0], turf);
      if first.node.None? then first
      else Then(first, Fold(first.node.value, subs[1..], turf))
  }

  /** One pass of the loop body: the running minuend `m` against subtrahend `s`. */
  function Step(m: Node, s: Node, turf: Turf): (o: Outcome)
    decreases Size(s), 0, 0
    // a simple geometry is skipped after one warning naming its type
    ensures s.Geometry? && !IsPolygonal(s.kind) ==>
              o == Outcome(Some(m), [IgnoredWarning("A subtrahend", s.kind)])
    // a polygon is subtracted silently, null exactly when the difference is
    ensures s.Geometry? && IsPolygonal(s.kind) ==>
              o.warnings == [] && (o.node.None? <==> turf.difference(m, s).None?)
    // a Feature without geometry and any other object change nothing
    ensures (s.Feature? && s.geometry.None?) || s.Opaque? ==> o == Outcome(Some(m), [])
  {
    match s
    case Geometry(kind, _) =>
      if !IsPolygonal(kind) then Outcome(Some(m), [IgnoredWarning("A subtrahend", kind)])
      else (
        match turf.difference(m, s)
        case None => Outcome(None, [])
        case Some(d) => Outcome(Some(turf.rewind(d)), [])
      )
    case Feature(g, _) =>
      if g.None? then Outcome(Some(m), [])
      else
        SizeOfSingleton(g.value);
        Subtract(m, [g.value], turf)
    case GeometryCollection(gs) => Subtract(m, gs, turf)
    case FeatureCollection(fs) => Subtract(m, fs, turf)
    case Opaque(_) => Outcome(Some(m), [])
  }

  /** `.map(geom => subtractGeojsons(geom, subtrahends)).filter(geom => geom !== null)`. */
  function Survive(gs: seq<Node>, subs: seq<Node>, turf: Turf): (r: Survivors)
    decreases SizeOf(subs), SizeOf(gs), 3
    ensures |r.nodes| <= |gs|
    ensures subs == [] ==> r.nodes == gs
  {
    if gs == [] then Survivors([], [])
    else
      SizeOfBoundsMember(gs, 0);
      var head := Subtract(gs[0], subs, turf);
      var tail := Survive(gs[1..], subs, turf);
      Survivors((if head.node.Some? then [head.node.value] else []) + tail.nodes,
                head.warnings + tail.warnings)
  }

  /** Continue from a non-null outcome with a later outcome: the later node
      wins and the warnings are kept in order. */
  function Then(first: Outcome, rest: Outcome): Outcome {
    Outcome(rest.node, first.warnings + rest.warnings)
  }

  // ---------------------------------------------------------------------
  // Polygon minuends: order, short-circuit, skipping, rewinding

  /** Folding over `a + b` is folding over `a` and then, unless that
      annihilated the minuend, over `b` from where `a` left off: subtrahends
      are applied strictly in list order, each to the already-reduced
      minuend, and nothing after an annihilation is looked at. */
  lemma {:induction false} FoldAppend(m: Node, a: seq<Node>, b: seq<Node>, turf: Turf)
    ensures Fold(m, a + b, turf) ==
            (var first := Fold(m, a, turf);
             if first.node.None? then first else Then(first, Fold(first.node.value, b, turf)))
    decreases a
  {
    if a == [] {
      assert a + b == b;
      assert [] + Fold(m, b, turf).warnings == Fold(m, b, turf).warnings;
    } else {
      assert (a + b)[0] == a[0];
      assert (a + b)[1..] == a[1..] + b;
      var first := Step(m, a[0], turf);
      if first.node.Some? {
        FoldAppend(first.node.value, a[1..], b, turf);
        var mid := Fold(first.node.value, a[1..], turf);
        if mid.node.Some? {
          var last := Fold(mid.node.value, b, turf);
          assert first.warnings + (mid.warnings + last.warnings)
              == (first.warnings + mid.warnings) + last.warnings;
        }
      }
    }
  }

  /** Once the subtrahends in `a` annihilate the minuend, the ones in `b`
      change nothing: the loop has stopped. */
  lemma AnnihilationStops(m: Node, a: seq<Node>, b: seq<Node>, turf: Turf)
    requires Fold(m, a, turf).node.None?
    ensures Fold(m, a + b, turf) == Fold(m, a, turf)
  {
    FoldAppend(m, a, b, turf);
  }

  /** A non-polygonal geometry among the subtrahends is skipped with one
      warning and leaves the running minuend as it was. */
  lemma NonPolygonalSubtrahendSkipped(m: Node, s: Node, rest: seq<Node>, turf: Turf)
    requires s.Geometry? && !IsPolygonal(s.kind)
    ensures Fold(m, [s] + rest, turf) ==
            Outcome(Fold(m, rest, turf).node,
                    [IgnoredWarning("A subtrahend", s.kind)] + Fold(m, rest, turf).warnings)
  {
    assert ([s] + rest)[0] == s;
    assert ([s] + rest)[1..] == rest;
  }

  /** One polygon minus one polygon: the library difference, rewound exactly
      once when it is not null, and never rewound when it is. */
  lemma SubtractOnePolygon(m: Node, s: Node, turf: Turf)
    requires IsOperand(m) && IsOperand(s)
    ensures Subtract(m, [s], turf) ==
            Outcome(match turf.difference(m, s)
                    case None => None
                    case Some(d) => Some(turf.rewind(d)), [])
  {
    assert [s][1..] == [];
    var first := Step(m, s, turf);
    assert Fold(m, [s], turf) == (if first.node.None? then first else Then(first, Fold(first.node.value, [], turf)));
  }

  /** The reference behaviour for a list of polygons: difference, rewind,
      and stop at the first null. */
  function DifferenceChain(m: Node, subs: seq<Node>, turf: Turf): Option<Node>
    decreases subs
  {
    if subs == [] then Some(m)
    else match turf.difference(m, subs[0])
      case None => None
      case Some(d) => DifferenceChain(turf.rewind(d), subs[1..], turf)
  }

  /** When every subtrahend is a polygon, the walk is exactly that chain and
      warns about nothing. */
  lemma {:induction false} FoldOfPolygonsIsChain(m: Node, subs: seq<Node>, turf: Turf)
    requires forall i :: 0 <= i < |subs| ==> IsOperand(subs[i])
    ensures Fold(m, subs, turf) == Outcome(DifferenceChain(m, subs, turf), [])
    decreases subs
  {
    if subs != [] {
      match turf.difference(m, subs[0])
      case None =>
      case Some(d) =>
        FoldOfPolygonsIsChain(turf.rewind(d), subs[1..], turf);
    }
  }

  /** A Feature, GeometryCollection or FeatureCollection subtrahend is
      subtracted through its contents: nested subtrahends are flattened. */
  lemma ContainerSubtrahendFlattens(m: Node, s: Node, turf: Turf)
    requires IsOperand(m)
    ensures s.GeometryCollection? ==> Subtract(m, [s], turf) == Subtract(m, s.geometries, turf)
    ensures s.FeatureCollection? ==> Subtract(m, [s], turf) == Subtract(m, s.features, turf)
    ensures s.Feature? && s.geometry.Some? ==>
              Subtract(m, [s], turf) == Subtract(m, [s.geometry.value], turf)
  {
    assert [s][1..] == [];
    var first := Step(m, s, turf);
    assert first.warnings + [] == first.warnings;
  }

  /** The library keeps a polygonal result polygonal: the difference of two
      polygons is a Polygon or MultiPolygon, and rewinding keeps its type. */
  ghost predicate KeepsPolygons(turf: Turf) {
    forall m, s, d :: turf.difference(m, s) == Some(d) ==> IsOperand(turf.rewind(d))
  }

  /** A polygonal minuend stays polygonal or becomes null, whatever the
      subtrahends are and however deeply they are nested. */
  lemma {:induction false} FoldKeepsPolygon(m: Node, subs: seq<Node>, turf: Turf)
    requires IsOperand(m) && KeepsPolygons(turf)
    ensures Fold(m, subs, turf).node.Some? ==> IsOperand(Fold(m, subs, turf).node.value)
    decreases SizeOf(subs), 0, 1
  {
    if subs != [] {
      SizeOfBoundsMember(subs, 0);
      StepKeepsPolygon(m, subs[0], turf);
      var first := Step(m, subs[0], turf);
      if first.node.Some? {
        FoldKeepsPolygon(first.node.value, subs[1..], turf);
      }
    }
  }

  lemma {:induction false} StepKeepsPolygon(m: Node, s: Node, turf: Turf)
    requires IsOperand(m) && KeepsPolygons(turf)
    ensures Step(m, s, turf).node.Some? ==> IsOperand(Step(m, s, turf).node.value)
    decreases Size(s), 0, 0
  {
    match s
    case Geometry(_, _) =>
    case Feature(g, _) =>
      if g.Some? {
        SizeOfSingleton(g.value);
        FoldKeepsPolygon(m, [g.value], turf);
      }
    case GeometryCollection(gs) => FoldKeepsPolygon(m, gs, turf);
    case FeatureCollection(fs) => FoldKeepsPolygon(m, fs, turf);
    case Opaque(_) =>
  }

  // ---------------------------------------------------------------------
  // Containers: Features and collections

  /** A Feature keeps its wrapper and properties; only its geometry is
      replaced, possibly by null. */
  lemma FeatureKeepsWrapper(g: Node, props: Value, subs: seq<Node>, turf: Turf)
    ensures Subtract(Feature(Some(g), props), subs, turf) ==
            Outcome(Some(Feature(Subtract(g, subs, turf).node, props)), Subtract(g, subs, turf).warnings)
  {
  }

  /** Each member of a collection reduced on its own, against the same list
      of subtrahends. */
  function Results(gs: seq<Node>, subs: seq<Node>, turf: Turf): (r: seq<Option<Node>>)
    ensures |r| == |gs|
  {
    seq(|gs|, i requires 0 <= i < |gs| => Subtract(gs[i], subs, turf).node)
  }

  /** The non-null entries of a list, in their order. */
  function Present(xs: seq<Option<Node>>): (r: seq<Node>)
    ensures |r| <= |xs|
  {
    if xs == [] then []
    else (if xs[0].Some? then [xs[0].value] else []) + Present(xs[1..])
  }

  /** Collections are mapped member by member and the nulls filtered out. */
  lemma {:induction false} SurviveIsFilterOfMap(gs: seq<Node>, subs: seq<Node>, turf: Turf)
    ensures Survive(gs, subs, turf).nodes == Present(Results(gs, subs, turf))
  {
    if gs != [] {
      SurviveIsFilterOfMap(gs[1..], subs, turf);
      assert Results(gs, subs, turf)[1..] == Results(gs[1..], subs, turf);
    }
  }

  /** A member that is not a polygon is never dropped, so a FeatureCollection
      of Features keeps all of them (an annihilated Feature stays, with a null
      geometry). */
  lemma {:induction false} NonOperandMembersSurvive(gs: seq<Node>, subs: seq<Node>, turf: Turf)
    requires forall i :: 0 <= i < |gs| ==> !IsOperand(gs[i])
    ensures |Survive(gs, subs, turf).nodes| == |gs|
  {
    if gs != [] {
      NonOperandMembersSurvive(gs[1..], subs, turf);
    }
  }

  /** A collection whose members are all annihilated becomes an empty
      collection, never null. */
  lemma AllAnnihilatedLeavesEmptyCollection(gs: seq<Node>, subs: seq<Node>, turf: Turf)
    requires forall i :: 0 <= i < |gs| ==> Subtract(gs[i], subs, turf).node.None?
    ensures Subtract(GeometryCollection(gs), subs, turf).node == Some(GeometryCollection([]))
    ensures Subtract(FeatureCollection(gs), subs, turf).node == Some(FeatureCollection([]))
  {
    SurviveIsFilterOfMap(gs, subs, turf);
    PresentOfNulls(Results(gs, subs, turf));
  }

  /** Filtering a list of nulls leaves nothing. */
  lemma {:induction false} PresentOfNulls(xs: seq<Option<Node>>)
    requires forall i :: 0 <= i < |xs| ==> xs[i].None?
    ensures Present(xs) == []
  {
    if xs != [] {
      PresentOfNulls(xs[1..]);
    }
  }
}
