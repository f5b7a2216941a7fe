// The Wavefront OBJ loader (mesh_loader.h): `v x y z` lines append a
// scaled and shifted vertex, `f a b c ...` lines fan-triangulate a polygon
// over the vertices read so far, every other line is ignored. The file is
// given as its lines (None when it cannot be opened) and the extraction of
// three doubles from a `v` line as a function.

module MeshLoader {
  import opened Options
  import opened Vectors
  import opened Materials
  import opened Triangles
  import opened NumberParsing

  /** Why loading stops without a result: std::stoi throws on the part
      of a slashed token before its first '/', or a face names a vertex
      that is not in the list (undefined behaviour in the source). */
  datatype Abort = StoiThrows | VertexOutOfRange

  /** The loader's two growing lists. */
  datatype Mesh = Mesh(vertices: seq<Point3>, triangles: seq<Triangle>)

  datatype Step = Continue(mesh: Mesh) | Stop(why: Abort)

  /** What load_obj returns. */
  datatype Loaded = Triangles(triangles: seq<Triangle>) | Aborted(why: Abort)

  predicate StartsWith(line: string, prefix: string) {
    |prefix| <= |line| && line[..|prefix|] == prefix
  }

  /** The index of the first c in s, or |s| (npos) when there is none. */
  function IndexOf(s: string, c: char): (k: nat)
    ensures k <= |s| && c !in s[..k]
    ensures k < |s| ==> s[k] == c
  {
    if |s| == 0 then 0
    else if s[0] == c then 0
    else
      var k := 1 + IndexOf(s[1..], c);
      assert s[..k] == [s[0]] + s[1..][..k - 1];
      k
  }

  /** The segments std::getline(s, segment, ' ') yields: the text between
      spaces, an empty segment for each doubled space, and no segment after
      a final space. */
  function Segments(s: string): (segs: seq<string>)
    decreases |s|
  {
    if |s| == 0 then []
    else
      var k := IndexOf(s, ' ');
      if k == |s| then [s] else [s[..k]] + Segments(s[k + 1..])
  }

  /** The segments with one space between each two. */
  function Join(segs: seq<string>): string {
    if |segs| == 0 then "" else if |segs| == 1 then segs[0] else segs[0] + " " + Join(segs[1..])
  }

  /** What follows the last segment: the final space, if any. */
  function FinalSpace(s: string): string {
    if 0 < |s| && s[|s| - 1] == ' ' then " " else ""
  }

  /** Splitting at the spaces loses nothing but a final space. */
  lemma {:induction false} JoinSegments(s: string)
    ensures Join(Segments(s)) + FinalSpace(s) == s
    decreases |s|
  {
    if |s| > 0 {
      var k := IndexOf(s, ' ');
      SegmentsSplit(s);
      if k < |s| {
        var head, tail := s[..k], s[k + 1..];
        JoinSegments(tail);
        JoinSplit(s, head, tail, Segments(tail));
      } else {
        assert Segments(s) == [s];
      }
    }
  }

  lemma JoinSplit(s: string, head: string, tail: string, rest: seq<string>)
    requires 0 < |s| && s == head + " " + tail
    requires Join(rest) + FinalSpace(tail) == tail
    requires |tail| == 0 <==> |rest| == 0
    ensures Join([head] + rest) + FinalSpace(s) == s
  {
    if |tail| == 0 {
      assert [head] + rest == [head];
      assert FinalSpace(s) == " ";
    } else {
      assert ([head] + rest)[1..] == rest;
      assert Join([head] + rest) == head + " " + Join(rest);
      assert FinalSpace(s) == FinalSpace(tail);
      assert s == head + " " + (Join(rest) + FinalSpace(tail));
    }
  }

  lemma SegmentsSplit(s: string)
    requires 0 < |s|
    ensures IndexOf(s, ' ') == |s| ==> Segments(s) == [s]
    ensures IndexOf(s, ' ') < |s| ==>
              Segments(s) == [s[..IndexOf(s, ' ')]] + Segments(s[IndexOf(s, ' ') + 1..])
  {
  }

  /** How one segment of a face line is read. */
  datatype Parsed = Skip | Index(idx: int) | Throws

  /** One segment: an empty one is skipped; one with a '/' contributes the
      stoi of the text before the first '/' and throws where that stoi
      throws; one without a '/' contributes its stoi and is skipped where
      that stoi throws. A contributed index is made 0-based. */
  function FaceToken(seg: string): (p: Parsed)
    ensures p.Index? ==> IntMin - 1 <= p.idx < IntMax
  {
    if |seg| == 0 then Skip
    else
      var k := IndexOf(seg, '/');
      if k < |seg| then
        match StoI(seg[..k])
        case None => Throws
        case Some(v) => Index(v - 1)
      else
        match StoI(seg)
        case None => Skip
        case Some(v) => Index(v - 1)
  }

  /** v, v/vt/vn and v//vn all name vertex v - 1; a slashed token whose
      vertex part is not a number throws, a slash-free one is skipped. */
  lemma FaceTokenForms(v: int, tail: string, junk: string)
    requires IntMin <= v <= IntMax
    requires junk != [] && junk[0] == 'x' && '/' !in junk
    ensures FaceToken(ToString(v)) == Index(v - 1)
    ensures FaceToken(ToString(v) + "/" + tail) == Index(v - 1)
    ensures FaceToken(junk).Skip?
    ensures FaceToken("/" + tail).Throws?
  {
    StoIToString(v, []);
    assert ToString(v) + [] == ToString(v);
    var s := ToString(v);
    var t := s + "/" + tail;
    assert t[..|s|] == s && t[|s|] == '/';
    assert IndexOf(t, '/') == |s| by { IndexOfFirst(t, '/', |s|); }
    assert IndexOf(s, '/') == |s|;
    assert StoI(junk) == None by { ScanNoDigits(junk); }
    assert IndexOf("/" + tail, '/') == 0;
    assert StoI([]) == None;
  }

  /** A position holding c with no c before it is the first c. */
  lemma IndexOfFirst(s: string, c: char, k: nat)
    requires k < |s| && s[k] == c && c !in s[..k]
    ensures IndexOf(s, c) == k
    decreases k
  {
    if k > 0 {
      assert s[..k][0] == s[0];
      assert s[1..][..k - 1] == s[..k][1..];
      IndexOfFirst(s[1..], c, k - 1);
    }
  }

  /** Text that starts with a letter holds no number. */
  lemma ScanNoDigits(s: string)
    requires s != [] && s[0] == 'x'
    ensures Scan(s).None?
  {
    assert LeadingSpaces(s) == 0;
    assert s[0..] == s;
    assert LeadingDigits(s) == 0;
  }

  /** The indices of a face line's segments, in order; None where a stoi
      throws. */
  function FaceIndices(segs: seq<string>): (r: Option<seq<int>>)
    ensures r.Some? ==> |r.value| <= |segs|
  {
    if |segs| == 0 then Some([])
    else
      match FaceIndices(segs[..|segs| - 1])
      case None => None
      case Some(f) => Extend(f, FaceToken(segs[|segs| - 1]))
  }

  /** The indices after one more segment. */
  function Extend(f: seq<int>, p: Parsed): Option<seq<int>> {
    match p
    case Skip => Some(f)
    case Index(i) => Some(f + [i])
    case Throws => None
  }

  lemma FaceIndicesStep(segs: seq<string>, n: nat)
    requires n < |segs|
    ensures FaceIndices(segs[..n + 1]) ==
            if FaceIndices(segs[..n]).None? then None else Extend(FaceIndices(segs[..n]).value, FaceToken(segs[n]))
  {
    assert segs[..n + 1][..n] == segs[..n];
  }

  /** Empty segments (from doubled spaces) change nothing. */
  lemma EmptySegmentsSkipped(segs: seq<string>)
    ensures FaceIndices(segs + [""]) == FaceIndices(segs)
  {
    assert (segs + [""])[..|segs|] == segs;
  }

  /** Once a segment throws, the whole face throws. */
  lemma {:induction false} FaceThrowSticks(segs: seq<string>, n: nat)
    requires n <= |segs| && FaceIndices(segs[..n]).None?
    ensures FaceIndices(segs).None?
    decreases |segs| - n
  {
    if n < |segs| {
      assert segs[..n + 1][..n] == segs[..n];
      FaceThrowSticks(segs, n + 1);
    } else {
      assert segs[..n] == segs;
    }
  }

  /** Every index of the face lies in [0, |vertices|). */
  predicate InRange(f: seq<int>, count: int) {
    forall k :: 0 <= k < |f| ==> 0 <= f[k] < count
  }

  /** The fan triangulation of a polygon with k >= 3 corners: k - 2
      triangles, the i-th with corners f[0], f[i + 1], f[i + 2]. */
  function Fan(f: seq<int>, vertices: seq<Point3>, m: Option<Material>): (t: seq<Triangle>)
    requires |f| >= 3 && InRange(f, |vertices|)
    ensures |t| == |f| - 2
    ensures forall i :: 0 <= i < |t| ==> t[i].mat == m && t[i].v0 == vertices[f[0]]
    ensures forall i :: 0 <= i < |t| - 1 ==> t[i].v2 == t[i + 1].v1
  {
    seq(|f| - 2, i requires 0 <= i < |f| - 2 => Triangle(vertices[f[0]], vertices[f[i + 1]], vertices[f[i + 2]], m))
  }

  /** Point3(x * scale, y * scale, z * scale) + offset */
  function Place(p: Point3, scale: real, offset: Point3): Point3 {
    Vec3(p.x * scale, p.y * scale, p.z * scale).Plus(offset)
  }

  /** One line of the file. */
  function LineStep(mesh: Mesh, line: string, m: Option<Material>, scale: real, offset: Point3,
                    readXyz: string -> Point3): (r: Step)
    ensures !StartsWith(line, "v ") && !StartsWith(line, "f ") ==> r == Continue(mesh)
    ensures StartsWith(line, "v ") ==>
              r == Continue(Mesh(mesh.vertices + [Place(readXyz(line[2..]), scale, offset)], mesh.triangles))
    ensures r.Continue? ==> |mesh.triangles| <= |r.mesh.triangles| &&
                            r.mesh.triangles[..|mesh.triangles|] == mesh.triangles
    ensures r.Continue? ==> forall k :: |mesh.triangles| <= k < |r.mesh.triangles| ==> r.mesh.triangles[k].mat == m
  {
    if StartsWith(line, "v ") then
      Continue(Mesh(mesh.vertices + [Place(readXyz(line[2..]), scale, offset)], mesh.triangles))
    else if StartsWith(line, "f ") then
      match FaceIndices(Segments(line[2..]))
      case None => Stop(StoiThrows)
      case Some(f) =>
        if |f| < 3 then Continue(mesh)
        else if !InRange(f, |mesh.vertices|) then Stop(VertexOutOfRange)
        else Continue(Mesh(mesh.vertices, mesh.triangles + Fan(f, mesh.vertices, m)))
    else Continue(mesh)
  }

  /** A face line with k >= 3 readable, in-range indices adds exactly the
      k - 2 fan triangles and keeps the vertices; with fewer it adds none. */
  lemma FaceLine(mesh: Mesh, line: string, m: Option<Material>, scale: real, offset: Point3,
                 readXyz: string -> Point3)
    requires StartsWith(line, "f ") && FaceIndices(Segments(line[2..])).Some?
    ensures var f := FaceIndices(Segments(line[2..])).value;
            var r := LineStep(mesh, line, m, scale, offset, readXyz);
            (|f| < 3 ==> r == Continue(mesh)) &&
            (|f| >= 3 && InRange(f, |mesh.vertices|) ==>
               r.Continue? && r.mesh.vertices == mesh.vertices &&
               |r.mesh.triangles| == |mesh.triangles| + |f| - 2) &&
            (|f| >= 3 && !InRange(f, |mesh.vertices|) ==> r == Stop(VertexOutOfRange))
  {
    assert !StartsWith(line, "v ") by {
      assert line[1] == ' ';
      assert line[..2][0] == 'f';
    }
  }

  /** The lines read so far. */
  function LoadLines(lines: seq<string>, m: Option<Material>, scale: real, offset: Point3,
                     readXyz: string -> Point3): Step
  {
    if |lines| == 0 then Continue(Mesh([], []))
    else
      match LoadLines(lines[..|lines| - 1], m, scale, offset, readXyz)
      case Stop(why) => Stop(why)
      case Continue(mesh) => LineStep(mesh, lines[|lines| - 1], m, scale, offset, readXyz)
  }

  /** Once a line stops the load, the whole file stops with that reason. */
  lemma {:induction false} StopSticks(lines: seq<string>, n: nat, m: Option<Material>, scale: real,
                                      offset: Point3, readXyz: string -> Point3)
    requires n <= |lines| && LoadLines(lines[..n], m, scale, offset, readXyz).Stop?
    ensures LoadLines(lines, m, scale, offset, readXyz) == LoadLines(lines[..n], m, scale, offset, readXyz)
    decreases |lines| - n
  {
    if n < |lines| {
      assert lines[..n + 1][..n] == lines[..n];
      StopSticks(lines, n + 1, m, scale, offset, readXyz);
    } else {
      assert lines[..n] == lines;
    }
  }

  /** load_obj: an empty list when the file cannot be opened, else the
      triangles of all faces in file order. */
  function LoadObjSpec(file: Option<seq<string>>, m: Option<Material>, scale: real, offset: Point3,
                       readXyz: string -> Point3): (r: Loaded)
    ensures file.None? ==> r == Triangles([])
  {
    match file
    case None => Triangles([])
    case Some(lines) =>
      match LoadLines(lines, m, scale, offset, readXyz)
      case Stop(why) => Aborted(why)
      case Continue(mesh) => Triangles(mesh.triangles)
  }

  /** Every loaded triangle carries the loader's material. */
  lemma {:induction false} LoadedCarry(lines: seq<string>, m: Option<Material>, scale: real, offset: Point3,
                                       readXyz: string -> Point3)
    ensures var r := LoadLines(lines, m, scale, offset, readXyz);
            r.Continue? ==> forall k :: 0 <= k < |r.mesh.triangles| ==> r.mesh.triangles[k].mat == m
  {
    if |lines| > 0 {
      var front := lines[..|lines| - 1];
      LoadedCarry(front, m, scale, offset, readXyz);
      var prev := LoadLines(front, m, scale, offset, readXyz);
      if prev.Continue? {
        var r := LineStep(prev.mesh, lines[|lines| - 1], m, scale, offset, readXyz);
        if r.Continue? {
          var earlier := prev.mesh.triangles;
          forall k | 0 <= k < |earlier|
            ensures r.mesh.triangles[k].mat == m
          {
            assert r.mesh.triangles[..|earlier|][k] == earlier[k];
          }
        }
      }
    }
  }

  /** Lines other than `v ` and `f ` lines (normals, texture coordinates,
      comments, groups) can be dropped from the file without changing the
      result. */
  lemma {:induction false} OtherLinesIgnored(lines: seq<string>, line: string, rest: seq<string>,
                                             m: Option<Material>, scale: real, offset: Point3,
                                             readXyz: string -> Point3)
    requires !StartsWith(line, "v ") && !StartsWith(line, "f ")
    ensures LoadLines(lines + [line] + rest, m, scale, offset, readXyz) ==
            LoadLines(lines + rest, m, scale, offset, readXyz)
    decreases |rest|
  {
    if |rest| == 0 {
      assert lines + [line] + rest == lines + [line];
      assert (lines + [line])[..|lines|] == lines;
      assert lines + rest == lines;
    } else {
      var front := rest[..|rest| - 1];
      OtherLinesIgnored(lines, line, front, m, scale, offset, readXyz);
      assert (lines + [line] + rest)[..|lines + [line] + rest| - 1] == lines + [line] + front;
      assert (lines + rest)[..|lines + rest| - 1] == lines + front;
    }
  }

  /** The segment loop of a face line. */
  method ParseFace(body: string) returns (r: Option<seq<int>>)
    ensures r == FaceIndices(Segments(body))
  {
    var segs := Segments(body);
    var faceIndices: seq<int> := [];
    for n := 0 to |segs|
      invariant FaceIndices(segs[..n]) == Some(faceIndices)
    {
      FaceIndicesStep(segs, n);
      var segment := segs[n];
      if |segment| == 0 {
        continue;
      }
      var firstSlash := IndexOf(segment, '/');
      var idx;
      if firstSlash < |segment| {
        var v := StoI(segment[..firstSlash]);
        if v.None? {
          FaceThrowSticks(segs, n + 1);
          return None;
        }
        idx := v.value;
      } else {
        var v := StoI(segment);
        if v.None? {
          continue;
        }
        idx := v.value;
      }
      faceIndices := faceIndices + [idx - 1];
    }
    assert segs[..|segs|] == segs;
    r := Some(faceIndices);
  }

  /** The triangulation loop of a face line. */
  method AppendFan(objects: seq<Triangle>, vertices: seq<Point3>, faceIndices: seq<int>, m: Option<Material>)
    returns (objects': seq<Triangle>)
    requires |faceIndices| >= 3 && InRange(faceIndices, |vertices|)
    ensures objects' == objects + Fan(faceIndices, vertices, m)
  {
    objects' := objects;
    for i := 1 to |faceIndices| - 1
      invariant objects' == objects + Fan(faceIndices, vertices, m)[..i - 1]
    {
      assert Fan(faceIndices, vertices, m)[..i] == Fan(faceIndices, vertices, m)[..i - 1] +
             [Triangle(vertices[faceIndices[0]], vertices[faceIndices[i]], vertices[faceIndices[i + 1]], m)];
      objects' := objects' + [Triangle(vertices[faceIndices[0]], vertices[faceIndices[i]],
                                       vertices[faceIndices[i + 1]], m)];
    }
    assert Fan(faceIndices, vertices, m)[..|faceIndices| - 2] == Fan(faceIndices, vertices, m);
  }

  lemma LoadLinesStep(lines: seq<string>, n: nat, m: Option<Material>, scale: real, offset: Point3,
                      readXyz: string -> Point3)
    requires n < |lines|
    ensures var prev := LoadLines(lines[..n], m, scale, offset, readXyz);
            LoadLines(lines[..n + 1], m, scale, offset, readXyz) ==
              if prev.Stop? then prev else LineStep(prev.mesh, lines[n], m, scale, offset, readXyz)
  {
    assert lines[..n + 1][..n] == lines[..n];
  }

  /** load_obj. */
  method LoadObj(file: Option<seq<string>>, m: Option<Material>, scale: real, offset: Point3,
                 readXyz: string -> Point3) returns (r: Loaded)
    ensures r == LoadObjSpec(file, m, scale, offset, readXyz)
  {
    if file.None? {
      return Triangles([]);
    }
    var lines := file.value;
    var vertices: seq<Point3> := [];
    var objects: seq<Triangle> := [];
    var n := 0;
    while n < |lines|
      invariant 0 <= n <= |lines|
      invariant LoadLines(lines[..n], m, scale, offset, readXyz) == Continue(Mesh(vertices, objects))
    {
      var line := lines[n];
      LoadLinesStep(lines, n, m, scale, offset, readXyz);
      if StartsWith(line, "v ") {
        var p := readXyz(line[2..]);
        vertices := vertices + [Place(p, scale, offset)];
      } else if StartsWith(line, "f ") {
        var face := ParseFace(line[2..]);
        if face.None? {
          StopSticks(lines, n + 1, m, scale, offset, readXyz);
          return Aborted(StoiThrows);
        }
        var faceIndices := face.value;
        if |faceIndices| >= 3 {
          if !InRange(faceIndices, |vertices|) {
            StopSticks(lines, n + 1, m, scale, offset, readXyz);
            return Aborted(VertexOutOfRange);
          }
          objects := AppendFan(objects, vertices, faceIndices, m);
        }
      }
      n := n + 1;
    }
    assert lines[..n] == lines;
    r := Triangles(objects);
  }
}
