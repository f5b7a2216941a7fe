// The spatial hashing shared by the three photon-mapping renderers
// (renderer_ppm.h, renderer_sppm.h, renderer_pm.h): a point's grid cell,
// the hash of a cell into a bucket index, the 3x3x3 neighbourhood that
// update / estimate_radiance probe, and the bucket contents build produces.

module SpatialHash {
  import opened Vectors
  import opened Utils

  /** Integer cell coordinates. */
  datatype Cell = Cell(x: int, y: int, z: int)

  const Two32: int := 0x1_0000_0000

  /** The low 32 bits of n: what a 32-bit int multiplication keeps after
      wrapping, read as an unsigned int. */
  function Wrap32(n: int): bv32 {
    (n % Two32) as bv32
  }

  const PrimeX: int := 73856093
  const PrimeY: int := 19349663
  const PrimeZ: int := 83492791

  /** hash_coords: (x * 73856093) ^ (y * 19349663) ^ (z * 83492791), each
      product wrapping at 32 bits, taken as unsigned int modulo size. */
  function HashCoords(c: Cell, size: int): (h: int)
    requires size > 0
    ensures 0 <= h < size
  {
    Mix(Wrap32(c.x * PrimeX), Wrap32(c.y * PrimeY), Wrap32(c.z * PrimeZ), size)
  }

  /** The xor of the three wrapped products, reduced to a bucket index. */
  function Mix(hx: bv32, hy: bv32, hz: bv32, size: int): (h: int)
    requires size > 0
    ensures 0 <= h < size
  {
    ((hx ^ hy ^ hz) as int) % size
  }

  lemma ModShift(a: int, k: int)
    ensures (a + Two32 * k) % Two32 == a % Two32
  {
    var q := a / Two32;
    assert a == Two32 * q + a % Two32;
    assert a + Two32 * k == Two32 * (q + k) + a % Two32;
  }

  lemma WrapShift(a: int, prime: int)
    ensures Wrap32((a + Two32) * prime) == Wrap32(a * prime)
  {
    assert (a + Two32) * prime == a * prime + Two32 * prime;
    ModShift(a * prime, prime);
  }

  /** Only the low 32 bits of each coordinate matter: cells 2^32 apart on an
      axis share a bucket. */
  lemma HashCoordsWraps(c: Cell, size: int)
    requires size > 0
    ensures HashCoords(Cell(c.x + Two32, c.y, c.z), size) == HashCoords(c, size)
    ensures HashCoords(Cell(c.x, c.y + Two32, c.z), size) == HashCoords(c, size)
    ensures HashCoords(Cell(c.x, c.y, c.z + Two32), size) == HashCoords(c, size)
  {
    WrapShift(c.x, PrimeX);
    WrapShift(c.y, PrimeY);
    WrapShift(c.z, PrimeZ);
  }

  /** floor(p / cell_size) on each axis: the cells of PPM and PM. */
  function FloorCell(p: Point3, cellSize: real): Cell
    requires cellSize != 0.0
  {
    Cell((p.x / cellSize).Floor, (p.y / cellSize).Floor, (p.z / cellSize).Floor)
  }

  /** static_cast<int>(p / cell_size) on each axis: the cells of SPPM. */
  function TruncCell(p: Point3, cellSize: real): Cell
    requires cellSize != 0.0
  {
    Cell(Trunc(p.x / cellSize), Trunc(p.y / cellSize), Trunc(p.z / cellSize))
  }

  /** Truncation makes cell 0 twice as wide as the others: it spans
      (-cell_size, cell_size), while floor cells are half-open of width
      cell_size. */
  lemma TruncCellZero(a: real, cellSize: real)
    requires cellSize > 0.0
    ensures Trunc(a / cellSize) == 0 <==> -cellSize < a < cellSize
    ensures (a / cellSize).Floor == 0 <==> 0.0 <= a < cellSize
  {
    var q := a / cellSize;
    assert q * cellSize == a;
    ScaledBounds(q, cellSize, a);
    assert Trunc(q) == 0 <==> -1.0 < q < 1.0;
    assert -1.0 < q < 1.0 <==> -cellSize < a < cellSize;
    assert q.Floor as real <= q < q.Floor as real + 1.0;
    assert q.Floor == 0 <==> 0.0 <= q < 1.0;
  }

  /** Comparing a quotient against -1, 0 and 1 is comparing the dividend
      against -c, 0 and c. */
  lemma ScaledBounds(q: real, c: real, a: real)
    requires c > 0.0 && q * c == a
    ensures q < 1.0 <==> a < c
    ensures -1.0 < q <==> -c < a
    ensures 0.0 <= q <==> 0.0 <= a
  {
    ProductSign(q, c, a);
    ProductSign(1.0 - q, c, c - a);
    ProductSign(q + 1.0, c, a + c);
  }

  /** Cells at most one apart on every axis. */
  predicate Adjacent(a: Cell, b: Cell) {
    -1 <= a.x - b.x <= 1 && -1 <= a.y - b.y <= 1 && -1 <= a.z - b.z <= 1
  }

  /** The 27 cells update / estimate_radiance visit, in their loop order:
      dz outermost, then dy, then dx, each from -1 to 1. */
  function Neighbours(c: Cell): (ns: seq<Cell>)
    ensures |ns| == 27
  {
    seq(27, j => Cell(c.x + j % 3 - 1, c.y + (j / 3) % 3 - 1, c.z + j / 9 - 1))
  }

  /** Position of offset (dx, dy, dz) in the probe order. */
  function ProbeIndex(dx: int, dy: int, dz: int): int {
    (dz + 1) * 9 + (dy + 1) * 3 + (dx + 1)
  }

  /** The probe visits exactly the cells adjacent to the centre, offset
      (dx, dy, dz) at position ProbeIndex(dx, dy, dz). */
  lemma NeighboursComplete(c: Cell, d: Cell)
    ensures Adjacent(d, c) <==> d in Neighbours(c)
    ensures Adjacent(d, c) ==>
              var j := ProbeIndex(d.x - c.x, d.y - c.y, d.z - c.z);
              0 <= j < 27 && Neighbours(c)[j] == d
  {
    var ns := Neighbours(c);
    if Adjacent(d, c) {
      var dx, dy, dz := d.x - c.x, d.y - c.y, d.z - c.z;
      var j := ProbeIndex(dx, dy, dz);
      assert j % 3 == dx + 1 && (j / 3) % 3 == dy + 1 && j / 9 == dz + 1;
      assert ns[j] == d;
    }
    if d in ns {
      var j :| 0 <= j < 27 && ns[j] == d;
      assert 0 <= j % 3 < 3 && 0 <= (j / 3) % 3 < 3 && 0 <= j / 9 < 3;
    }
  }

  /** Points less than a cell apart on an axis have floor cells at most one
      apart on it. */
  lemma FloorClose(a: real, b: real, cellSize: real)
    requires cellSize > 0.0
    requires -cellSize < a - b < cellSize
    ensures -1 <= (a / cellSize).Floor - (b / cellSize).Floor <= 1
  {
    var qa, qb := a / cellSize, b / cellSize;
    assert a == qa * cellSize && b == qb * cellSize;
    assert (qa - qb) * cellSize == a - b;
    ScaledBounds(qa - qb, cellSize, a - b);
    assert qa.Floor as real <= qa < qa.Floor as real + 1.0;
    assert qb.Floor as real <= qb < qb.Floor as real + 1.0;
    assert qa.Floor as real - qb.Floor as real < 2.0;
    assert qa.Floor as real - qb.Floor as real > -2.0;
  }

  /** A point within `radius` of another (squared distance at most
      radius^2) lies in an adjacent floor cell whenever radius < cell size;
      with cell size 2 * radius, as both PPM and PM build their grids, the
      27-cell probe around one point reaches the other. */
  lemma WithinRadiusAdjacent(p: Point3, q: Point3, radius: real, cellSize: real)
    requires 0.0 <= radius < cellSize
    requires p.Minus(q).LengthSquared() <= Sq(radius)
    ensures Adjacent(FloorCell(p, cellSize), FloorCell(q, cellSize))
  {
    var d := p.Minus(q);
    AxisWithin(d.x, d.y, d.z, radius);
    AxisWithin(d.y, d.x, d.z, radius);
    AxisWithin(d.z, d.x, d.y, radius);
    FloorClose(p.x, q.x, cellSize);
    FloorClose(p.y, q.y, cellSize);
    FloorClose(p.z, q.z, cellSize);
  }

  /** One coordinate of a vector is no longer than the vector. */
  lemma AxisWithin(a: real, b: real, c: real, radius: real)
    requires 0.0 <= radius
    requires a * a + b * b + c * c <= Sq(radius)
    ensures -radius <= a <= radius
  {
    SqNonNegative(b);
    SqNonNegative(c);
    assert Sq(a) <= Sq(radius);
    if a > radius {
      SqMonotone(radius, a);
    }
    if a < -radius {
      assert Sq(a) == Sq(-a);
      SqMonotone(radius, -a);
    }
  }

  /** The bucket `b` of a table built from elements whose hashes are
      `keys`: the indices of the elements hashing to b, in input order. */
  function Bucket(keys: seq<int>, b: int): seq<nat>
  {
    if |keys| == 0 then []
    else Bucket(keys[..|keys| - 1], b) + (if keys[|keys| - 1] == b then [|keys| - 1] else [])
  }

  /** Element i is in the bucket of its own hash and in no other, exactly
      once, and the bucket lists indices in increasing order. */
  lemma {:induction false} BucketMembers(keys: seq<int>, b: int)
    ensures forall i :: i in Bucket(keys, b) <==> 0 <= i < |keys| && keys[i] == b
    ensures forall j, k :: 0 <= j < k < |Bucket(keys, b)| ==> Bucket(keys, b)[j] < Bucket(keys, b)[k]
  {
    if |keys| > 0 {
      var init := keys[..|keys| - 1];
      BucketMembers(init, b);
      forall i | 0 <= i < |init| ensures init[i] == keys[i] { }
      var front := Bucket(init, b);
      forall j | 0 <= j < |front| ensures front[j] < |init| {
        assert front[j] in front;
      }
    }
  }

  /** One more element extends only the bucket of its own key. */
  lemma BucketExtend(keys: seq<int>, i: nat)
    requires i < |keys|
    ensures forall b :: Bucket(keys[..i + 1], b) == Bucket(keys[..i], b) + (if keys[i] == b then [i] else [])
  {
    assert keys[..i + 1][..i] == keys[..i];
  }

  /** Bucket b holds only indices of elements, below their number. */
  lemma BucketBelow(keys: seq<int>, b: int)
    ensures forall j :: 0 <= j < |Bucket(keys, b)| ==> Bucket(keys, b)[j] < |keys|
  {
    BucketMembers(keys, b);
    forall j | 0 <= j < |Bucket(keys, b)| ensures Bucket(keys, b)[j] < |keys| {
      assert Bucket(keys, b)[j] in Bucket(keys, b);
    }
  }

  /** Every entry of a built table is the index of an element. */
  lemma BuiltIndexesBelow(table: seq<seq<nat>>, keys: seq<int>)
    requires BuiltFrom(table, keys)
    ensures forall b, j :: 0 <= b < |table| && 0 <= j < |table[b]| ==> table[b][j] < |keys|
  {
    forall b | 0 <= b < |table| {
      BucketBelow(keys, b);
    }
  }

  /** The table build produces from elements with these bucket keys. */
  predicate BuiltFrom(table: seq<seq<nat>>, keys: seq<int>) {
    forall b :: 0 <= b < |table| ==> table[b] == Bucket(keys, b)
  }

  /** Element k occurs once in the bucket of its own key and in no other
      bucket. */
  lemma {:induction false} BucketCount(keys: seq<int>, b: int, k: nat)
    ensures multiset(Bucket(keys, b))[k] == if k < |keys| && keys[k] == b then 1 else 0
  {
    if |keys| > 0 {
      var init := keys[..|keys| - 1];
      BucketCount(init, b, k);
      if k < |init| {
        assert init[k] == keys[k];
      }
    }
  }

  /** Number of entries over the buckets 0 .. n-1. */
  function TotalEntries(keys: seq<int>, n: nat): nat {
    if n == 0 then 0 else TotalEntries(keys, n - 1) + |Bucket(keys, n - 1)|
  }

  /** Adding one element adds one entry, to the bucket of its hash. */
  lemma {:induction false} TotalEntriesStep(keys: seq<int>, k: int, n: nat)
    ensures TotalEntries(keys + [k], n) == TotalEntries(keys, n) + (if 0 <= k < n then 1 else 0)
  {
    if n > 0 {
      TotalEntriesStep(keys, k, n - 1);
      assert (keys + [k])[..|keys|] == keys;
    }
  }

  /** When every hash is a valid bucket index, the buckets hold as many
      entries as there are elements. */
  lemma {:induction false} TotalEntriesIsCount(keys: seq<int>, size: nat)
    requires forall i :: 0 <= i < |keys| ==> 0 <= keys[i] < size
    ensures TotalEntries(keys, size) == |keys|
  {
    if |keys| == 0 {
      EmptyTotal(size);
    } else {
      var init := keys[..|keys| - 1];
      TotalEntriesIsCount(init, size);
      assert init + [keys[|keys| - 1]] == keys;
      TotalEntriesStep(init, keys[|keys| - 1], size);
    }
  }

  lemma {:induction false} EmptyTotal(n: nat)
    ensures TotalEntries([], n) == 0
  {
    if n > 0 {
      EmptyTotal(n - 1);
    }
  }
}
