/** The GeoJSON values the difference walk sees. The walk in src/index.js
    dispatches on which field a node has (`coordinates`, `geometry`,
    `geometries`, `features`), not on its `type` tag, so each constructor of
    `Node` stands for one of those fields being present and truthy. */
module GeoJson {
  import opened Wrappers

  /** A JSON value carried along but never inspected by the walk
      (coordinate arrays, Feature properties). */
  datatype Value =
    | Null
    | Bool(b: bool)
    | Num(n: real)
    | Str(s: string)
    | Arr(items: seq<Value>)
    | Obj(members: seq<(string, Value)>)

  datatype Node =
      /** An object with truthy `coordinates`: a bare geometry of type `kind`
          (a missing `type` is the string "undefined"). */
    | Geometry(kind: string, coordinates: Value)
      /** An object with a `geometry` field; `None` is a null or missing
          geometry, which the walk leaves alone. */
    | Feature(geometry: Option<Node>, properties: Value)
    | GeometryCollection(geometries: seq<Node>)
    | FeatureCollection(features: seq<Node>)
      /** An object with none of the four fields, e.g. a node without a type. */
    | Opaque(kind: string)

  /** The two geometry kinds that take part in a difference. */
  predicate IsPolygonal(kind: string) {
    kind == "Polygon" || kind == "MultiPolygon"
  }

  /** A Polygon or MultiPolygon geometry: the only minuend the difference can
      annihilate. */
  predicate IsOperand(n: Node) {
    n.Geometry? && IsPolygonal(n.kind)
  }

  /** `turfHelpers.featureCollection([])`, the top-level "empty" result. */
  const EmptyFeatureCollection: Node := FeatureCollection([])

  /** Number of nodes in a tree, the measure the walk's recursion decreases. */
  function Size(n: Node): (k: nat)
    ensures k >= 1
  {
    match n
    case Geometry(_, _) => 1
    case Feature(g, _) => if g.Some? then 1 + Size(g.value) else 1
    case GeometryCollection(gs) => 1 + SizeOf(gs)
    case FeatureCollection(fs) => 1 + SizeOf(fs)
    case Opaque(_) => 1
  }

  /** Total size of a list of nodes. */
  function SizeOf(ns: seq<Node>): (k: nat)
    ensures |ns| <= k
  {
    if ns == [] then 0 else Size(ns[0]) + SizeOf(ns[1..])
  }

  /** A one-element list weighs what its element does. */
  lemma SizeOfSingleton(n: Node)
    ensures SizeOf([n]) == Size(n)
  {
    assert [n][1..] == [];
  }

  /** Every member of a list is at most as large as the whole list. */
  lemma {:induction false} SizeOfBoundsMember(ns: seq<Node>, i: nat)
    requires i < |ns|
    ensures Size(ns[i]) <= SizeOf(ns)
  {
    if i > 0 {
      SizeOfBoundsMember(ns[1..], i - 1);
    }
  }
}
