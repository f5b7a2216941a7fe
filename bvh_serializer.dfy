// The BVH cache (bvh_serializer.h): a depth-first, tagged encoding of a
// bounding-volume hierarchy. The byte stream is modelled as a sequence of
// tokens, each one 32-bit int or one double.

module BvhSerializer {
  import opened Options
  import opened Vectors
  import opened Boxes
  import opened Materials
  import opened Triangles

  /** One value the stream holds: a tag or a coordinate. */
  datatype Token = Int32(i: int) | Double(d: real)

  /** A node of the hierarchy as the serializer sees it: an internal node,
      a triangle, some other primitive (a sphere, a plane, a list), or a
      null pointer. */
  datatype Node =
    | Bvh(box: Aabb, left: Node, right: Node)
    | Tri(tri: Triangle)
    | Other
    | Null

  const BvhTag: int := 0
  const TriangleTag: int := 1
  const UnknownTag: int := -1

  function EncodeVec(v: Vec3): (s: seq<Token>)
    ensures |s| == 3
  {
    [Double(v.x), Double(v.y), Double(v.z)]
  }

  /** save_bvh_node: tag 0, the box and both subtrees for an internal
      node; tag 1 and the three vertices for a triangle; tag -1 alone for
      anything else. A triangle's material is not written. */
  function Encode(n: Node): (s: seq<Token>)
    ensures 0 < |s|
  {
    match n
    case Bvh(box, left, right) =>
      [Int32(BvhTag)] + EncodeVec(box.minimum) + EncodeVec(box.maximum) + Encode(left) + Encode(right)
    case Tri(t) =>
      [Int32(TriangleTag)] + EncodeVec(t.v0) + EncodeVec(t.v1) + EncodeVec(t.v2)
    case _ =>
      [Int32(UnknownTag)]
  }

  /** Reads one Point3: three doubles. */
  function DecodeVec(s: seq<Token>): (r: Option<(Vec3, seq<Token>)>)
    ensures r.Some? ==> 3 <= |s| && r.value.1 == s[3..]
    ensures r.Some? <==> 3 <= |s| && s[0].Double? && s[1].Double? && s[2].Double?
  {
    if 3 <= |s| && s[0].Double? && s[1].Double? && s[2].Double?
    then Some((Vec3(s[0].d, s[1].d, s[2].d), s[3..]))
    else None
  }

  /** load_bvh_node: the node the stream starts with and the tokens after
      it; every triangle gets the loader's material m. A stream that ends
      early or holds a double where a tag belongs, or a tag where a double
      belongs, is None (the source reads garbage there). */
  function Decode(s: seq<Token>, m: Option<Material>): (r: Option<(Node, seq<Token>)>)
    ensures r.Some? ==> |r.value.1| < |s|
    decreases |s|
  {
    if |s| == 0 || !s[0].Int32? then None
    else if s[0].i == BvhTag then
      match DecodeVec(s[1..])
      case None => None
      case Some((lo, s1)) =>
        match DecodeVec(s1)
        case None => None
        case Some((hi, s2)) =>
          match Decode(s2, m)
          case None => None
          case Some((left, s3)) =>
            match Decode(s3, m)
            case None => None
            case Some((right, s4)) => Some((Bvh(Aabb(lo, hi), left, right), s4))
    else if s[0].i == TriangleTag then
      match DecodeVec(s[1..])
      case None => None
      case Some((v0, s1)) =>
        match DecodeVec(s1)
        case None => None
        case Some((v1, s2)) =>
          match DecodeVec(s2)
          case None => None
          case Some((v2, s3)) => Some((Tri(Triangle(v0, v1, v2, m)), s3))
    else Some((Null, s[1..]))
  }

  /** What a save and load keep of a tree: its shape, boxes and vertices;
      triangles take the loader's material, other primitives become null. */
  function Normalize(n: Node, m: Option<Material>): Node {
    match n
    case Bvh(box, left, right) => Bvh(box, Normalize(left, m), Normalize(right, m))
    case Tri(t) => Tri(Triangle(t.v0, t.v1, t.v2, m))
    case _ => Null
  }

  lemma DecodeVecEncodeVec(v: Vec3, rest: seq<Token>)
    ensures DecodeVec(EncodeVec(v) + rest) == Some((v, rest))
  {
    var s := EncodeVec(v) + rest;
    assert s[3..] == rest;
  }

  /** The round trip: decoding an encoding followed by anything yields the
      normalised tree and stops exactly where the encoding ends. */
  lemma {:induction false} DecodeEncode(n: Node, m: Option<Material>, rest: seq<Token>)
    ensures Decode(Encode(n) + rest, m) == Some((Normalize(n, m), rest))
  {
    match n
    case Bvh(box, left, right) =>
      DecodeEncode(left, m, Encode(right) + rest);
      DecodeEncode(right, m, rest);
      EncodeBvhSplit(box, left, right, rest);
      DecodeBvhStep(box, Encode(left) + (Encode(right) + rest), m, Normalize(left, m), Encode(right) + rest,
                    Normalize(right, m), rest);
    case Tri(t) =>
      DecodeTriStep(t, m, rest);
    case Other =>
      assert (Encode(n) + rest)[1..] == rest;
    case Null =>
      assert (Encode(n) + rest)[1..] == rest;
  }

  lemma EncodeBvhSplit(box: Aabb, left: Node, right: Node, rest: seq<Token>)
    ensures Encode(Bvh(box, left, right)) + rest ==
              [Int32(BvhTag)] + EncodeVec(box.minimum) + EncodeVec(box.maximum) + (Encode(left) + (Encode(right) + rest))
  {
    var head := [Int32(BvhTag)] + EncodeVec(box.minimum) + EncodeVec(box.maximum);
    var l, r := Encode(left), Encode(right);
    assert Encode(Bvh(box, left, right)) == head + l + r;
    Concat3(head, l, r, rest);
  }

  lemma Concat3(a: seq<Token>, b: seq<Token>, c: seq<Token>, d: seq<Token>)
    ensures a + b + c + d == a + (b + (c + d))
  {
  }

  /** Decoding an internal node: tag, box, then both subtrees in turn. */
  lemma DecodeBvhStep(box: Aabb, s2: seq<Token>, m: Option<Material>, left: Node, s3: seq<Token>, right: Node,
                      s4: seq<Token>)
    requires Decode(s2, m) == Some((left, s3)) && Decode(s3, m) == Some((right, s4))
    ensures Decode([Int32(BvhTag)] + EncodeVec(box.minimum) + EncodeVec(box.maximum) + s2, m) ==
              Some((Bvh(Aabb(box.minimum, box.maximum), left, right), s4))
  {
    var s := [Int32(BvhTag)] + EncodeVec(box.minimum) + EncodeVec(box.maximum) + s2;
    assert s[1..] == EncodeVec(box.minimum) + (EncodeVec(box.maximum) + s2);
    DecodeVecEncodeVec(box.minimum, EncodeVec(box.maximum) + s2);
    DecodeVecEncodeVec(box.maximum, s2);
  }

  /** Decoding a triangle: tag and three vertices; the material is the
      loader's. */
  lemma DecodeTriStep(t: Triangle, m: Option<Material>, rest: seq<Token>)
    ensures Decode(Encode(Tri(t)) + rest, m) == Some((Tri(Triangle(t.v0, t.v1, t.v2, m)), rest))
  {
    var s := Encode(Tri(t)) + rest;
    assert s[1..] == EncodeVec(t.v0) + (EncodeVec(t.v1) + (EncodeVec(t.v2) + rest));
    DecodeVecEncodeVec(t.v0, EncodeVec(t.v1) + (EncodeVec(t.v2) + rest));
    DecodeVecEncodeVec(t.v1, EncodeVec(t.v2) + rest);
    DecodeVecEncodeVec(t.v2, rest);
  }

  /** Encodings written one after the other decode one after the other. */
  lemma DecodeInSequence(a: Node, b: Node, m: Option<Material>)
    ensures Decode(Encode(a) + Encode(b), m) == Some((Normalize(a, m), Encode(b)))
    ensures Decode(Encode(b), m) == Some((Normalize(b, m), []))
  {
    DecodeEncode(a, m, Encode(b));
    DecodeEncode(b, m, []);
    assert Encode(b) + [] == Encode(b);
  }

  /** A tag other than 0 or 1 reads as null and consumes the tag alone. */
  lemma UnknownTagIsNull(k: int, rest: seq<Token>, m: Option<Material>)
    requires k != BvhTag && k != TriangleTag
    ensures Decode([Int32(k)] + rest, m) == Some((Null, rest))
  {
    assert ([Int32(k)] + rest)[1..] == rest;
  }

  /** Every triangle of the tree carries material m. */
  predicate TrianglesCarry(n: Node, m: Option<Material>) {
    match n
    case Bvh(_, left, right) => TrianglesCarry(left, m) && TrianglesCarry(right, m)
    case Tri(t) => t.mat == m
    case _ => true
  }

  /** No primitive of the tree is of a kind the serializer does not know. */
  predicate KnownKinds(n: Node) {
    match n
    case Bvh(_, left, right) => KnownKinds(left) && KnownKinds(right)
    case Other => false
    case _ => true
  }

  /** Every decoded triangle carries the loader's material, whatever
      material the saved one had, and no decoded node is of an unknown
      kind. */
  lemma {:induction false} DecodedCarries(s: seq<Token>, m: Option<Material>)
    requires Decode(s, m).Some?
    ensures TrianglesCarry(Decode(s, m).value.0, m) && KnownKinds(Decode(s, m).value.0)
    decreases |s|
  {
    if s[0].i == BvhTag {
      var s2 := DecodeVec(DecodeVec(s[1..]).value.1).value.1;
      DecodedCarries(s2, m);
      var s3 := Decode(s2, m).value.1;
      DecodedCarries(s3, m);
    }
  }

  /** A tree survives a save and a load unchanged exactly when all its
      primitives are internal nodes, triangles or nulls and every triangle
      already has the loader's material. */
  lemma {:induction false} NormalizeFixed(n: Node, m: Option<Material>)
    ensures Normalize(n, m) == n <==> KnownKinds(n) && TrianglesCarry(n, m)
  {
    match n
    case Bvh(_, left, right) =>
      NormalizeFixed(left, m);
      NormalizeFixed(right, m);
    case Tri(t) =>
    case Other =>
    case Null =>
  }

  /** The encoding does not see what normalising forgets: materials and
      the kind of an unknown primitive. */
  lemma {:induction false} EncodeNormalize(n: Node, m: Option<Material>)
    ensures Encode(Normalize(n, m)) == Encode(n)
  {
    match n
    case Bvh(_, left, right) =>
      EncodeNormalize(left, m);
      EncodeNormalize(right, m);
    case _ =>
  }

  /** save_bvh_to_file: the file's contents, or None when the file cannot
      be opened for writing (the source then returns false). */
  function SaveBvhToFile(writable: bool, root: Node): (file: Option<seq<Token>>)
    ensures file.Some? <==> writable
    ensures file.Some? ==> 0 < |file.value|
  {
    if writable then Some(Encode(root)) else None
  }

  /** load_bvh_from_file: a file that cannot be opened gives null; a file
      that does not decode is None; tokens after the root are ignored. */
  function LoadBvhFromFile(file: Option<seq<Token>>, m: Option<Material>): (root: Option<Node>)
    ensures file.None? ==> root == Some(Null)
  {
    match file
    case None => Some(Null)
    case Some(s) =>
      match Decode(s, m)
      case None => None
      case Some((n, _)) => Some(n)
  }

  /** A saved file loads back as the normalised tree; a file that could
      not be written loads as null. */
  lemma SaveThenLoad(writable: bool, root: Node, m: Option<Material>)
    ensures writable ==> LoadBvhFromFile(SaveBvhToFile(writable, root), m) == Some(Normalize(root, m))
    ensures !writable ==> LoadBvhFromFile(SaveBvhToFile(writable, root), m) == Some(Null)
  {
    DecodeEncode(root, m, []);
    assert Encode(root) + [] == Encode(root);
  }
}
