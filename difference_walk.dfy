/** The difference walk as the source runs it: `subtractGeojsons` reassigns
    its running minuend inside the `subtrahends.some(...)` loop and stops at
    the first null, and rebuilds each collection member by member. Each
    method is proved to compute the specification in module Difference. */
module DifferenceWalk {
  import opened Wrappers
  import opened GeoJson
  import opened Difference

  /** `subtractGeojsons(minuend, subtrahends)` (src/index.js:123-174). */
  method SubtractGeojsons(minuend: Node, subtrahends: seq<Node>, turf: Turf) returns (o: Outcome)
    decreases SizeOf(subtrahends), Size(minuend), 2
    ensures o == Subtract(minuend, subtrahends, turf)
  {
    match minuend
    case Geometry(kind, _) =>
      if !IsPolygonal(kind) {
        return Outcome(Some(minuend), [IgnoredWarning("Minuend", kind)]);
      }
      var current := minuend;
      var warnings: seq<string> := [];
      var i := 0;
      while i < |subtrahends|
        invariant 0 <= i <= |subtrahends|
        invariant Then(Outcome(Some(current), warnings), Fold(current, subtrahends[i..], turf))
                  == Fold(minuend, subtrahends, turf)
      {
        var subtrahend := subtrahends[i];
        SizeOfBoundsMember(subtrahends, i);
        var step := ApplySubtrahend(current, subtrahend, turf);
        assert subtrahends[i..][1..] == subtrahends[i + 1..];
        if step.node.None? {
          return Outcome(None, warnings + step.warnings);
        }
        var rest := Fold(step.node.value, subtrahends[i + 1..], turf);
        assert warnings + (step.warnings + rest.warnings) == (warnings + step.warnings) + rest.warnings;
        current := step.node.value;
        warnings := warnings + step.warnings;
        i := i + 1;
      }
      return Outcome(Some(current), warnings);
    case Feature(g, props) =>
      if g.None? {
        return Outcome(Some(minuend), []);
      }
      var r := SubtractGeojsons(g.value, subtrahends, turf);
      return Outcome(Some(Feature(r.node, props)), r.warnings);
    case GeometryCollection(gs) =>
      var r := ReduceMembers(gs, subtrahends, turf);
      return Outcome(Some(GeometryCollection(r.nodes)), r.warnings);
    case FeatureCollection(fs) =>
      var r := ReduceMembers(fs, subtrahends, turf);
      return Outcome(Some(FeatureCollection(r.nodes)), r.warnings);
    case Opaque(_) =>
      return Outcome(Some(minuend), []);
  }

  /** The callback of `subtrahends.some(...)` (src/index.js:127-153): one
      subtrahend against the running minuend. */
  method ApplySubtrahend(minuend: Node, subtrahend: Node, turf: Turf) returns (step: Outcome)
    decreases Size(subtrahend), 0, 0
    ensures step == Step(minuend, subtrahend, turf)
  {
    match subtrahend
    case Geometry(skind, _) =>
      if !IsPolygonal(skind) {
        step := Outcome(Some(minuend), [IgnoredWarning("A subtrahend", skind)]);
      } else {
        var d := turf.difference(minuend, subtrahend);
        step := if d.Some? then Outcome(Some(turf.rewind(d.value)), []) else Outcome(None, []);
      }
    case Feature(g, _) =>
      if g.Some? {
        SizeOfSingleton(g.value);
        step := SubtractGeojsons(minuend, [g.value], turf);
      } else {
        step := Outcome(Some(minuend), []);
      }
    case GeometryCollection(gs) =>
      step := SubtractGeojsons(minuend, gs, turf);
    case FeatureCollection(fs) =>
      step := SubtractGeojsons(minuend, fs, turf);
    case Opaque(_) =>
      step := Outcome(Some(minuend), []);
  }

  /** `members.map(geom => subtractGeojsons(geom, subtrahends)).filter(geom => geom !== null)`. */
  method ReduceMembers(members: seq<Node>, subtrahends: seq<Node>, turf: Turf) returns (r: Survivors)
    decreases SizeOf(subtrahends), SizeOf(members), 3
    ensures r == Survive(members, subtrahends, turf)
  {
    var kept: seq<Node> := [];
    var warnings: seq<string> := [];
    var i := 0;
    while i < |members|
      invariant 0 <= i <= |members|
      invariant Survivors(kept + Survive(members[i..], subtrahends, turf).nodes,
                          warnings + Survive(members[i..], subtrahends, turf).warnings)
                == Survive(members, subtrahends, turf)
    {
      SizeOfBoundsMember(members, i);
      var reduced := SubtractGeojsons(members[i], subtrahends, turf);
      ReduceFrom(kept, warnings, members, i, subtrahends, turf);
      kept := kept + (if reduced.node.Some? then [reduced.node.value] else []);
      warnings := warnings + reduced.warnings;
      i := i + 1;
    }
    assert members[i..] == [];
    assert kept + [] == kept && warnings + [] == warnings;
    r := Survivors(kept, warnings);
  }

  /** One turn of the loop in `ReduceMembers`: member `i` is reduced and,
      unless null, appended to what was kept so far. */
  lemma ReduceFrom(kept: seq<Node>, warnings: seq<string>, members: seq<Node>, i: nat, subtrahends: seq<Node>, turf: Turf)
    requires i < |members|
    ensures var reduced := Subtract(members[i], subtrahends, turf);
            var rest := Survive(members[i..], subtrahends, turf);
            var tail := Survive(members[i + 1..], subtrahends, turf);
            kept + rest.nodes == (kept + (if reduced.node.Some? then [reduced.node.value] else [])) + tail.nodes &&
            warnings + rest.warnings == (warnings + reduced.warnings) + tail.warnings
  {
    assert members[i..][1..] == members[i + 1..];
    var reduced := Subtract(members[i], subtrahends, turf);
    var tail := Survive(members[i + 1..], subtrahends, turf);
    var head := if reduced.node.Some? then [reduced.node.value] else [];
    assert Survive(members[i..], subtrahends, turf) == Survivors(head + tail.nodes, reduced.warnings + tail.warnings);
    assert kept + (head + tail.nodes) == (kept + head) + tail.nodes;
    assert warnings + (reduced.warnings + tail.warnings) == (warnings + reduced.warnings) + tail.warnings;
  }
}
