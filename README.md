# HIT_CG light transport, modelled in Dafny

This project models the light-transport core of the HIT_CG renderer (`final_work/include`, with its
`main.cpp`) and the fly-through cameras of the OpenGL exercises (`lab2`, `lab3`). Arithmetic is over
mathematical reals. The square root is a function argument constrained by `Vectors.IsSqrt`. The scene
query, the camera rays, the random numbers, the tone map (`aces_approx`), the image decoder and the file
reads are also inputs.

The model is organised by the renderer's own files:

- **Geometry.** `Vectors` (the `vec3.h` operations), `Rays` (`ray.h`), `HitRecords`
  (`set_face_normal`), and `Spheres`, `Triangles`, `Planes`, `Quadratics` and `Boxes` for the `hit`
  and `bounding_box` of each primitive.
- **The scene.** `Scenes` has the closest-hit loop of `HittableObjList` and its bounding-box union, with
  the list as a class whose methods mutate a sequence. `RendererCommon` has `max_in_xyz`,
  `nearest_hit` and `get_feature`.
- **Materials.** `Materials` has `emitted`, the Schlick reflectance and the `Metal` constructor.
  `Scattering` has `scatter` for the four materials.
- **Shared photon-mapping parts.** `SpatialHash` has the cell maps (floor and truncation), the 32-bit
  wrapping `hash_coords`, the 27-cell neighbourhood and the bucket contents `build` leaves.
  `Progressive` has the statistics of a progressive hit point and the radius reduction.
  `Fresnel` has the `P = 0.25 + 0.5 Re` branch choice shared by all three photon tracers.
- **The renderers.** Each renderer has its own module:
  - `Ppm` (`renderer_ppm.h`): the hit-point grid, `update` and the reduction and reconstruction loops.
  - `Sppm` (`renderer_sppm.h`): the eye pass, photon tracing, gathering and the radius
    reduction of `render_sppm` as methods over arrays, proved against functions of the inputs.
  - `SppmRender` (`renderer_sppm.h`): the whole of `render_sppm` assembled from those pieces,
    and what its image shows for lit and unlit pixels.
  - `Pm` (`renderer_pm.h`): the photon map, `estimate_radiance`, `trace_photon_pm` and
    `eye_trace_estimate`.
  - `PathTracer` (`renderer_path.h`): `ray_color` and the pixel loop.
  - `FrameBuffer`: the pixel indexing and byte quantisation the renderers share.
- **Loaders and the command line.** `BvhSerializer` (the BVH cache as an encoding over tokens, with its
  round trip), `MeshLoader` (OBJ `v`/`f` lines and fan triangulation), `NumberParsing` (`std::stoi` and
  `atoi`), `Textures` (`texture.hpp`) and `CommandLine` (argument loop, defaults and dispatch of
  `main`).
- **Cameras.** `CameraControls`, `Lab2Camera` and `Lab3Camera` are the lab cameras, as classes whose
  methods update their fields.

Hash-grid buckets hold indices into the hit-point or photon array where the C++ code holds pointers. The
parallel loops are modelled as sequential loops. Where the order of the parallel photon loop could
matter, a lemma shows that it does not (`Sppm.DepositOrderIrrelevant`, `Progressive.CreditCommutes`).

## Model

| member | source | states |
|---|---|---|
| Rays.Ray.At | final_work/include/ray.h:22-24 | the point at t is the origin moved by t times the direction |
| Rays.AccessorsReturnArguments | final_work/include/ray.h:16-20 | origin() and direction() return exactly the constructor's arguments |
| Rays.AtZero | final_work/include/ray.h:22-24 | at(0) is the origin |
| Rays.AtShift | final_work/include/ray.h:22-24 | at(s + t) is at(s) moved by t times the direction |
| Utils.DegreesToRadiansLinear | final_work/include/utils.h:23-25 | the conversion is linear, maps 0 to 0 and 180 to pi |
| Utils.Clamp | final_work/include/utils.h:39-43 | the result lies in [min, max]; x in range is returned unchanged; below gives min, above gives max |
| Utils.ClampIdempotent | final_work/include/utils.h:39-43 | clamping twice equals clamping once |
| Utils.RandomDoubleIn | final_work/include/utils.h:34-37 | for a base sample in [0, 1) and min < max the value lies in [min, max) |
| Utils.TruncVersusFloor | final_work/include/renderer_sppm.h:63-70 | static_cast to int agrees with floor on non-negative values and is one more than floor on negative non-integers |
| HitRecords.HitRecord.SetFaceNormal | final_work/include/hittable_obj.h:32-37 | front face iff the direction opposes the outward normal; the normal is the outward normal or its negation accordingly, faces the ray, keeps its length; no other field changes |
| HitRecords.SetFaceNormalIdempotent | final_work/include/hittable_obj.h:32-37 | repeating the call with the same arguments changes nothing |
| HitRecords.SetFaceNormalForgetsPrevious | final_work/include/hittable_obj.h:32-37 | the new normal and flag do not depend on the record's earlier contents |
| Materials.MakeMetal | final_work/include/material.hpp:99 | the stored fuzz is min(f, 1): at most 1 and equal to f when f < 1 |
| Materials.Emitted | final_work/include/material.hpp:19-21 | black for every material but a light, the light's colour for a light |
| Materials.EmittedIgnoresSurfacePoint | final_work/include/material.hpp:52-54 | the emitted colour does not depend on u, v or p |
| Materials.PowUnitInterval | final_work/include/material.hpp:171 | a power of a value in [0, 1] stays in [0, 1] |
| Materials.SchlickR0Range | final_work/include/material.hpp:169-170 | for a positive index r0 lies in [0, 1) |
| Materials.ReflectanceRange | final_work/include/material.hpp:168-172 | for cos in [0, 1] the reflectance lies in [r0, 1], equals r0 at cos 1 and 1 at cos 0 |
| Scattering.RefractionRatio | final_work/include/material.hpp:138 | 1/ir on a front face, ir otherwise |
| Scattering.Scatter | final_work/include/material.hpp:45-162 | a light never scatters and leaves the out-parameters; Lambertian always scatters with its albedo, falling back to the normal for a degenerate direction; Metal scatters iff the ray leaves above the surface, with its albedo; Dielectric always scatters with white and reflects under total internal reflection; every scattered ray starts at the hit point |
| Scattering.MirrorScattersIffIncoming | final_work/include/material.hpp:105-112 | a polished metal keeps the reflection iff the incoming ray travels against the unit normal |
| Scattering.DielectricNormalIncidence | final_work/include/material.hpp:140-158 | a head-on ray that the Fresnel draw lets refract continues undeflected |
| Vectors.MirrorDirection | final_work/include/material.hpp:105 | reflection about a unit normal negates the normal component |
| Vectors.ReflectPreservesLength | final_work/include/material.hpp:105 | reflection about a unit normal keeps the length |
| Vectors.RefractNormalIncidence | final_work/include/material.hpp:158 | refraction at normal incidence leaves the direction unchanged, whatever the ratio |
| Boxes.SurroundingBox | final_work/include/hittable_list.hpp:62-66 | the union contains both boxes and is contained in every box that contains both |
| Planes.MakePlane | final_work/include/plane.h:12-15 | the normal is made unit length and d is chosen so that the given point lies on the plane |
| Planes.Hit | final_work/include/plane.h:17-30 | parallel rays (abs(n . dir) <= 1e-6) miss; a hit lies strictly inside (tMin, tMax), at r.at(t), on the plane, with the plane's material and the normal oriented against the ray; otherwise a hit exactly when the crossing lies in the open range |
| Planes.OnlyCrossing | final_work/include/plane.h:20 | a non-parallel ray meets the plane at exactly the computed t |
| Quadratics.Roots | final_work/include/sphere.h:53-60 | with s^2 the discriminant the zeros of the quadratic are exactly the two roots, the first no greater |
| Quadratics.NoRoots | final_work/include/sphere.h:53-54 | a negative discriminant leaves no zeros |
| Spheres.SurfaceEquation | final_work/include/sphere.h:48-53 | a ray meets the surface at t iff t is a zero of the quadratic a t^2 + 2 half_b t + c |
| Spheres.OutwardNormal | final_work/include/sphere.h:67 | (p - center) / radius has unit length for a surface point |
| Spheres.RecordAt | final_work/include/sphere.h:65-70 | the record holds t, r.at(t) and the sphere's material; the normal faces the ray and is unit on the surface |
| Spheres.Hit | final_work/include/sphere.h:47-73 | negative discriminant: no hit; a hit lies in [tMin, tMax] on the surface and is the nearest surface point in range; no hit iff no surface point in range |
| Spheres.HitUnderBound | final_work/include/sphere.h:58-63 | the hit under tMax is the unbounded hit when that one is admitted, none otherwise |
| Spheres.AxialHit | final_work/include/sphere.h:48-67 | a ray down the z axis from height h first meets the sphere at t = h - radius in its top point with normal +z (t = 4, (0, 0, 1) for the unit sphere and h = 5) |
| Spheres.HitNoLaterThan | final_work/include/sphere.h:58-63 | a surface point in range guarantees a hit no farther than it |
| Spheres.BoundingBox | final_work/include/sphere.h:75-80 | the box center -/+ (r, r, r) contains every surface point |
| Triangles.Hit | final_work/include/triangle.h:27-58 | abs(det) < 1e-8 misses; a hit lies in [tMin, tMax] at r.at(t), with (u, v) barycentric coordinates inside the triangle, the unit normal of e1 x e2 oriented against the ray and the triangle's material; beyond culling, no hit iff no point of the triangle lies on the ray in range |
| Triangles.CramerUnique | final_work/include/triangle.h:36-46 | for det != 0 a point of the triangle's plane on the ray has exactly the computed (t, u, v) |
| Triangles.Solution | final_work/include/triangle.h:36-46 | for det != 0 the computed (t, u, v) put the ray's point on the triangle's plane |
| Triangles.EdgesSpan | final_work/include/triangle.h:31-52 | det != 0 forces e1 x e2 != 0, so the normal is defined |
| Triangles.NoSolution | final_work/include/triangle.h:40-48 | when a test on u, v or t fails no point of the triangle is on the ray in range |
| Triangles.HitUnderBound | final_work/include/triangle.h:48 | the hit under tMax is the unbounded hit when that one is admitted, none otherwise |
| Triangles.BoundingBox | final_work/include/triangle.h:60-73 | the box contains each vertex with margin 1e-4 on every side and is the vertices' hull padded by exactly 1e-4 |
| Objects.ObjectHit | final_work/include/hittable_obj.h:54 | a sphere's or triangle's hit lies in [tMin, tMax], at r.at(t), with the normal against the ray |
| Objects.ObjectHitUnderBound | final_work/include/hittable_list.hpp:46 | asking with a tighter bound keeps a hit iff it lies under the bound |
| Objects.ObjectBox | final_work/include/hittable_list.hpp:63 | each kind of object always has a box: the triangle's padded hull, the sphere's cube |
| Scenes.ScanFindsClosest | final_work/include/hittable_list.hpp:43-50 | the scan's hit is admitted by tMax and no object's admitted probe is closer; no later object ties it |
| Scenes.OwnIsAdmittedProbe | final_work/include/hittable_list.hpp:46 | an object's own hit within the bound is its unbounded hit, if admitted |
| Scenes.ClosestOwnHit | final_work/include/hittable_list.hpp:40-54 | the scan finds nothing iff no object on its own is hit in range; otherwise it returns an object's own hit whose distance is least, the last such object winning |
| Scenes.UnionBoxIsLeast | final_work/include/hittable_list.hpp:62-66 | the folded union contains every object's box and lies inside every box that contains them all |
| Scenes.HitOutcome | final_work/include/hittable_list.hpp:45-53 | the loop's final state is no hit (rec unchanged) iff no object is hit, otherwise the closest own hit |
| Scenes.HittableObjList.Empty | final_work/include/hittable_list.hpp:18 | the list starts empty |
| Scenes.HittableObjList.Single | final_work/include/hittable_list.hpp:20 | the list holds just that object |
| Scenes.HittableObjList.Clear | final_work/include/hittable_list.hpp:24 | the list becomes empty |
| Scenes.HittableObjList.Add | final_work/include/hittable_list.hpp:26 | the object is appended at the end and nothing else changes |
| Scenes.HittableObjList.Hit | final_work/include/hittable_list.hpp:40-54 | returns false (rec unchanged) iff no object is hit in range; otherwise the record of an object's own hit in [tMin, tMax] no farther than any other object's |
| Scenes.HittableObjList.BoundingBox | final_work/include/hittable_list.hpp:56-69 | false for an empty list (box untouched); otherwise the least box containing every object's box |
| RendererCommon.Oriented | final_work/include/renderer_pm.h:170 | the normal turned against the ray: the normal or its negation, with non-positive dot product |
| RendererCommon.MaxInXyz | final_work/include/renderer_common.h:18-20 | at least every component and equal to one of them |
| RendererCommon.GetFeature | final_work/include/renderer_common.h:41-62 | null gives (DIFF, black); SPEC iff Metal, with its albedo; REFR iff Dielectric, with white; Lambertian and light give DIFF with albedo and emission |
| RendererCommon.FeatureAgreesWithMaterial | final_work/include/renderer_common.h:41-62 | a light's colour is what it emits and a scattering material's colour is the attenuation its scatter reports |
| RendererCommon.NearestHit | final_work/include/renderer_common.h:24-38 | (-1, 0) iff no object is hit from 0.001 on; otherwise an index whose own hit distance is least and is returned as the distance |
| SpatialHash.HashCoords | final_work/include/renderer_ppm.h:95-98 | with each product wrapped at 32 bits, xor-ed and reduced as unsigned modulo size, the bucket index lies in [0, size) |
| SpatialHash.Mix | final_work/include/renderer_ppm.h:96-97 | the xor of three 32-bit words modulo size lies in [0, size) |
| SpatialHash.HashCoordsWraps | final_work/include/renderer_ppm.h:96 | only the low 32 bits of each coordinate matter: cells 2^32 apart share a bucket |
| SpatialHash.TruncCellZero | final_work/include/renderer_sppm.h:63-70 | a truncated cell 0 spans (-cell_size, cell_size), while a floor cell 0 spans [0, cell_size) |
| SpatialHash.Neighbours | final_work/include/renderer_ppm.h:61-64 | the probe visits 27 cells |
| SpatialHash.NeighboursComplete | final_work/include/renderer_ppm.h:61-65 | a cell is probed iff it is within one of the centre on every axis, at the position its loop offsets give |
| SpatialHash.FloorClose | final_work/include/renderer_ppm.h:56-58 | points less than a cell apart on an axis have floor cells at most one apart |
| SpatialHash.WithinRadiusAdjacent | final_work/include/renderer_pm.h:46-54 | a point within radius of another, radius below the cell size (2 radius), lies in an adjacent floor cell, so the 27-cell probe reaches it |
| SpatialHash.BucketMembers | final_work/include/renderer_ppm.h:46-52 | an element is in the bucket of its own hash and no other, and each bucket lists indices in input order |
| SpatialHash.BucketExtend | final_work/include/renderer_ppm.h:48-51 | one more element extends only the bucket of its own key |
| SpatialHash.BucketBelow | final_work/include/renderer_ppm.h:48-51 | a bucket holds only indices of elements |
| SpatialHash.BuiltIndexesBelow | final_work/include/renderer_ppm.h:46-52 | every entry of a built table is the index of an element |
| SpatialHash.BucketCount | final_work/include/renderer_pm.h:31-37 | element k occurs exactly once in the bucket of its own key and in no other bucket |
| SpatialHash.TotalEntriesStep | final_work/include/renderer_ppm.h:48-51 | adding an element adds one entry, to the bucket of its hash |
| SpatialHash.TotalEntriesIsCount | final_work/include/renderer_ppm.h:46-52 | when every hash is a valid index the buckets hold as many entries as there are elements |
| Progressive.Initial | final_work/include/renderer_ppm.h:33-35 | a new hit point has the given radius squared and all counters zero |
| Progressive.Credit | final_work/include/renderer_ppm.h:71-80 | crediting n photons adds n to the count and n times the power to the flux, and keeps radius and totals |
| Progressive.CreditAdditive | final_work/include/renderer_ppm.h:71-80 | crediting two batches one after the other is crediting them at once |
| Progressive.CreditCommutes | final_work/include/renderer_ppm.h:71-80 | two batches can be credited in either order |
| Progressive.CreditNone | final_work/include/renderer_ppm.h:71-80 | crediting nobody changes nothing |
| Progressive.RatioBounds | final_work/include/renderer_ppm.h:321 | for N >= 0, M > 0, alpha in [0, 1] the ratio (N + alpha M) / (N + M) lies in [alpha, 1], below 1 when alpha < 1 |
| Progressive.Reduce | final_work/include/renderer_ppm.h:314-332 | a hit point without new photons is untouched; otherwise the per-iteration counters reset |
| Progressive.ReduceProgress | final_work/include/renderer_ppm.h:314-332 | the reduction keeps the statistics valid, never grows r2, shrinks it at most by alpha and strictly when photons arrived, and grows the count total by between 0 and M |
| Progressive.ReduceFields | final_work/include/renderer_ppm.h:321-330 | r2 and the flux total are scaled by the ratio, the count total becomes N + alpha M, the counters reset |
| Progressive.IdleFields | final_work/include/renderer_ppm.h:315 | with no new photons radius, counters and totals stay |
| Progressive.ReduceValid | final_work/include/renderer_ppm.h:314-332 | the reduction keeps radii and counts non-negative |
| Progressive.ReduceRadius | final_work/include/renderer_ppm.h:323 | r2 never grows and shrinks at most by the factor alpha |
| Progressive.ReduceCount | final_work/include/renderer_ppm.h:326 | the count total grows by between 0 and M |
| Progressive.ReduceStrict | final_work/include/renderer_ppm.h:321-323 | with alpha < 1 and photons arrived a positive r2 shrinks strictly |
| Progressive.ReduceKeepsDensity | final_work/include/renderer_ppm.h:323-325 | scaling flux and r2 by the same ratio keeps the radiance estimate of all flux gathered over the previous radius |
| Fresnel.GlassReflectance | final_work/include/renderer_ppm.h:150-151 | Re lies in [0.04, 1] for cos in [0, 1] and is 0.04 at normal incidence |
| Fresnel.GlassR0 | final_work/include/renderer_ppm.h:150 | r0 of glass (index 1.5) is 0.04 |
| Fresnel.ReflectProbability | final_work/include/renderer_ppm.h:153 | P = 0.25 + 0.5 Re lies in [0.25, 0.75] |
| Fresnel.ChooseBranch | final_work/include/renderer_ppm.h:156-160 | the path reflects iff the draw is below P, with a non-negative weight Re / P or Tr / (1 - P) |
| Fresnel.ChooseBranchUnbiased | final_work/include/renderer_ppm.h:150-160 | each branch's weight times its probability is its share Re or Tr, so the expected weight is 1 |
| Ppm.Keys | final_work/include/renderer_ppm.h:88-93 | each hit point's bucket is the hash of its floor cell |
| Ppm.CreditOne | final_work/include/renderer_ppm.h:73-79 | one visit adds 1 to n_new and the power to flux_new |
| Ppm.ProbeVisitsGrow | final_work/include/renderer_ppm.h:61-65 | probing more cells never reaches a hit point fewer times |
| Ppm.ProbedBucketVisits | final_work/include/renderer_ppm.h:64-65 | a probed cell whose bucket holds the hit point contributes a visit |
| Ppm.AdjacentHitPointVisited | final_work/include/renderer_ppm.h:56-65 | after build, a hit point whose cell is within one of the photon's on every axis is reached |
| Ppm.NearHitPointVisited | final_work/include/renderer_ppm.h:56-68 | a hit point within a radius below the cell size of the photon is reached |
| Ppm.CollidingCellsVisitTwice | final_work/include/renderer_ppm.h:61-65 | two probed cells hashing to the same bucket give its hit points two visits |
| Ppm.ProbeVisitsAreCollisions | final_work/include/renderer_ppm.h:61-65 | a hit point is reached exactly once per probed cell whose hash equals its own cell's hash |
| Ppm.FirstRadiusCellSize | final_work/include/renderer_ppm.h:284-286 | the cell size is twice the radius of hit_points[0], 0 when there is none |
| Ppm.FirstRadiusGridSkipsCell | final_work/include/renderer_ppm.h:284-286 | with cell size taken from hit_points[0] a hit point with a larger radius can gather a photon whose cell lies outside the probe |
| Ppm.UnprobedVisitsAreCollisions | final_work/include/renderer_ppm.h:61-68 | a hit point whose cell is not adjacent to the photon's is credited only through hash collisions |
| Ppm.MaxR2 | final_work/include/renderer_ppm.h:285 | the largest r2 over the hit points, 0 for none |
| Ppm.CoveringCellSize | final_work/include/renderer_ppm.h:284-286 | the corrected cell size is twice the largest radius |
| Ppm.CoveringGridComplete | final_work/include/renderer_ppm.h:56-80 | with the covering cell size every hit point that gathers a photon is reached by update |
| Ppm.HashGrid.constructor | final_work/include/renderer_ppm.h:41-43 | size empty buckets, with the given cell size |
| Ppm.HashGrid.Hash | final_work/include/renderer_ppm.h:88-93 | the bucket of p lies in [0, size) |
| Ppm.HashGrid.Build | final_work/include/renderer_ppm.h:46-52 | the table becomes exactly the buckets of the hit points' hashes, earlier contents gone |
| Ppm.HashGrid.Clear | final_work/include/renderer_ppm.h:47 | every bucket is emptied |
| Ppm.HashGrid.Update | final_work/include/renderer_ppm.h:55-86 | each hit point is credited once per probed cell whose bucket holds it, when within r2 and facing the photon; nothing else changes |
| Ppm.CreditedStep | final_work/include/renderer_ppm.h:64-82 | crediting the bucket of one more probed cell advances every hit point by that cell's visits |
| Ppm.BuildGrid | final_work/include/renderer_ppm.h:284-290 | the grid of one iteration, with the covering cell size and hit_points.size() + 1000 buckets, built over the hit points |
| Ppm.CreditBucket | final_work/include/renderer_ppm.h:65-82 | each hit point is credited once per occurrence in the bucket, gate permitting |
| Ppm.UpdatedAdditive | final_work/include/renderer_ppm.h:65-82 | crediting a visits and then b is crediting a + b |
| Ppm.ReduceRadii | final_work/include/renderer_ppm.h:314-332 | every hit point's statistics are reduced; nothing else changes |
| Ppm.ReduceRadiiProgress | final_work/include/renderer_ppm.h:314-332 | after the reduction every hit point is valid, no r2 grew and no count total shrank |
| Ppm.PhotonsPerIter | final_work/include/renderer_ppm.h:254-256 | total / 100, raised to at least 1000 |
| Ppm.Contribution | final_work/include/renderer_ppm.h:339-345 | nothing when r2 <= 1e-8, otherwise the radiance of the totals times the throughput |
| Ppm.PixelSumUnlit | final_work/include/renderer_ppm.h:338-345 | a pixel none of whose hit points has r2 > 1e-8 stays black |
| Ppm.PixelSumStep | final_work/include/renderer_ppm.h:338-345 | one more hit point adds to its own pixel only |
| Ppm.Reconstruct | final_work/include/renderer_ppm.h:337-346 | each pixel of the image is the sum of its hit points' contributions |
| FrameBuffer.PixelIndexRange | final_work/include/renderer_ppm.h:273 | (h - 1 - j) w + i lies in [0, w h) for every pixel |
| FrameBuffer.PixelIndexBijective | final_work/include/renderer_path.h:60-89 | the pixel map is a bijection from the w x h pixels onto [0, w h): each index comes from exactly one pixel |
| FrameBuffer.ChannelByte | final_work/include/renderer_path.h:87-89 | the byte is the floor of 256 clamp(c, 0, 0.999): 0 for c <= 0, 255 for c >= 0.999 |
| FrameBuffer.ChannelByteMonotone | final_work/include/renderer_path.h:87-89 | brighter channels never give smaller bytes |
| FrameBuffer.ToneBytes | final_work/include/renderer_ppm.h:351-358 | three bytes per pixel, after tone mapping and the square root |
| FrameBuffer.ToneBytesExtremes | final_work/include/renderer_ppm.h:351-358 | a pixel that tone-maps to black gives three zeros, one at least 0.999^2 in every channel three 255s |
| FrameBuffer.ImageBytes | final_work/include/renderer_ppm.h:349-359 | the buffer has 3 bytes per pixel |
| FrameBuffer.ImageBytesAt | final_work/include/renderer_ppm.h:350-358 | byte m of the buffer is channel m % 3 of pixel m / 3 |
| FrameBuffer.WriteImage | final_work/include/renderer_ppm.h:349-359 | the buffer written is exactly the image's bytes, pixel by pixel |
| Sppm.EyePath | final_work/include/renderer_sppm.h:105-151 | the eye path ends on a Lambertian record with the throughput including its albedo, or on nothing once max_depth bounces are used up |
| Sppm.NewHitPoint | final_work/include/renderer_sppm.h:120-131 | the stored hit point has the record's point, normal and material, a unit direction back towards the camera, its pixel, radius^2 = initial_radius^2 and zero counters |
| Sppm.PixelHitPoint | final_work/include/renderer_sppm.h:105-151 | a pixel has a hit point exactly when its eye path ends on a Lambertian surface, and that hit point is Lambertian and tagged with the pixel |
| Sppm.TracePixel | final_work/include/renderer_sppm.h:105-151 | the while loop over specular bounces leaves exactly the pixel's hit point |
| Sppm.PixelHit | final_work/include/renderer_sppm.h:98-126 | the hit point of buffer pixel q is Lambertian and carries index q |
| Sppm.PixelHits | final_work/include/renderer_sppm.h:98-99 | one outcome per visited pixel |
| Sppm.PixelHitsAt | final_work/include/renderer_sppm.h:98-126 | the loops (j down from h-1, i up) visit the buffer pixels in index order |
| Sppm.CompactTagged | final_work/include/renderer_sppm.h:133-134 | appending only the hit points keeps at most one per pixel, in strictly increasing pixel order, and loses none |
| Sppm.PixelHitsTagged | final_work/include/renderer_sppm.h:126 | every outcome is tagged with its own buffer index (h-1-j) w + i |
| Sppm.RecordedOrder | final_work/include/renderer_sppm.h:93-153 | the eye pass records at most one hit point per pixel, in strictly increasing pixel order |
| Sppm.RecordedPixels | final_work/include/renderer_sppm.h:119-134 | each recorded hit point is the end of its own pixel's eye path, Lambertian, with the initial radius and zero counters |
| Sppm.RecordedPixelAt | final_work/include/renderer_sppm.h:119-134 | recorded hit point k belongs to a visited pixel and is that pixel's hit point |
| Sppm.RecordedComplete | final_work/include/renderer_sppm.h:93-153 | a pixel has a recorded hit point if and only if its eye path ends on a Lambertian surface |
| Sppm.RecordedStep | final_work/include/renderer_sppm.h:133-134 | visiting one more pixel appends its hit point, if any, and nothing else |
| Sppm.EyePixel | final_work/include/renderer_sppm.h:99-151 | the hit point of pixel (i, j) is that of buffer index (h-1-j) w + i |
| Sppm.EyeRow | final_work/include/renderer_sppm.h:99-152 | one image row appends the hit points of its w buffer pixels, left to right |
| Sppm.EyePass | final_work/include/renderer_sppm.h:93-153 | the eye pass leaves exactly the hit points of all w h pixels, in buffer order |
| Sppm.Keys | final_work/include/renderer_sppm.h:44-52 | each hit point's bucket is the hash of its own truncated cell |
| Sppm.HashGrid.constructor | final_work/include/renderer_sppm.h:40-42 | size empty buckets with the given cell size |
| Sppm.HashGrid.Hash | final_work/include/renderer_sppm.h:63-70 | the bucket is in [0, size) and is the 32-bit wrapped xor hash of the truncated cell |
| Sppm.HashGrid.Build | final_work/include/renderer_sppm.h:44-52 | each bucket holds, in order, exactly the hit points whose own cell hashes to it |
| Sppm.HashGrid.Clear | final_work/include/renderer_sppm.h:45 | every bucket is emptied |
| Sppm.HashGrid.FindNearby | final_work/include/renderer_sppm.h:54-61 | result is extended with the single bucket of p's cell; neighbouring cells are not read |
| Sppm.FindNearbyMembers | final_work/include/renderer_sppm.h:54-61 | find_nearby adds each hit point whose cell hashes to p's bucket exactly once and no other |
| Sppm.Credited | final_work/include/renderer_sppm.h:194-210 | a photon adds one count per visit to a hit point exactly when it is within the radius and the normals agree (dot > 0.5); nothing else changes |
| Sppm.CreditedAdditive | final_work/include/renderer_sppm.h:194-210 | crediting a visits then b visits is crediting a + b visits |
| Sppm.Roulette | final_work/include/renderer_sppm.h:219-222 | the photon survives iff the random number is at most the largest attenuation channel p (and p is not zero) |
| Sppm.RouletteUnbiased | final_work/include/renderer_sppm.h:219-222 | p times the surviving power equals power times attenuation |
| Sppm.RouletteNeverGains | final_work/include/renderer_sppm.h:219-222 | with non-negative power and attenuation, no channel of the surviving power exceeds the old one |
| Sppm.HitDeposits | final_work/include/renderer_sppm.h:190-212 | a photon offers its power at a hit exactly when the surface is Lambertian |
| Sppm.PhotonStep | final_work/include/renderer_sppm.h:214-227 | a photon goes on only after a scatter (never from a light) that survives the roulette |
| Sppm.PhotonPath | final_work/include/renderer_sppm.h:185-231 | a photon path leaves at most max_depth deposits, none once the depth limit is reached |
| Sppm.PhotonPathStep | final_work/include/renderer_sppm.h:186-231 | one bounce is the deposit of this hit followed by the rest of the path when the photon goes on |
| Sppm.PhotonPathDiffuse | final_work/include/renderer_sppm.h:190 | every deposit lies on a Lambertian surface the scene reports |
| Sppm.AfterDepositsKeeps | final_work/include/renderer_sppm.h:194-210 | deposits change only the per-iteration flux and count, and keep the statistics valid |
| Sppm.AfterDepositsConcat | final_work/include/renderer_sppm.h:170-233 | crediting deposits a ++ b is crediting a, then b |
| Sppm.CreditedCommutes | final_work/include/renderer_sppm.h:200-208 | two photons credit a hit point the same in either order |
| Sppm.DepositOrderIrrelevant | final_work/include/renderer_sppm.h:169-233 | swapping two neighbouring photons of the parallel loop gives the same hit point |
| Sppm.SingleCellCredit | final_work/include/renderer_sppm.h:192-211 | a photon credits hit point k iff the gate passes and k's own cell hashes to the photon's bucket; otherwise k is unchanged |
| Sppm.GatherBucket | final_work/include/renderer_sppm.h:194-211 | every hit point is credited once per entry of the bucket that names it |
| Sppm.DepositPhoton | final_work/include/renderer_sppm.h:190-212 | the hit points become the start credited with one more deposit |
| Sppm.Bounce | final_work/include/renderer_sppm.h:214-227 | the scatter and roulette leave exactly the photon's next step |
| Sppm.PhotonBounce | final_work/include/renderer_sppm.h:186-231 | one pass of the bounce loop credits this hit's deposit and leaves the rest of the path to be traced |
| Sppm.TracePhoton | final_work/include/renderer_sppm.h:185-231 | the bounce loop credits the hit points with every deposit of the photon's path |
| Sppm.EmitPhoton | final_work/include/renderer_sppm.h:170-233 | photon first+q (skipped when there is no spherical light) extends the credited deposits of the photons before it |
| Sppm.TraceEmitted | final_work/include/renderer_sppm.h:177-231 | tracing an emitted photon credits exactly its path's deposits |
| Sppm.CreditedWithConcat | final_work/include/renderer_sppm.h:170-233 | crediting ds and then es is crediting ds ++ es |
| Sppm.PassDepositsStep | final_work/include/renderer_sppm.h:170 | one more photon appends its deposits |
| Sppm.PhotonPass | final_work/include/renderer_sppm.h:169-233 | the photon loop credits the hit points with the deposits of all photons of the iteration |
| Sppm.CreditedWithNothing | final_work/include/renderer_sppm.h:166 | before any photon every hit point is as it started |
| Sppm.ReduceRadii | final_work/include/renderer_sppm.h:236-250 | every hit point's statistics become their alpha = 0.7 reduction; nothing else changes |
| Sppm.TableOf | final_work/include/renderer_sppm.h:158-166 | the grid build leaves one bucket per slot |
| Sppm.AfterIteration | final_work/include/renderer_sppm.h:160-250 | after an iteration a hit point's statistics stay valid, radius^2 shrinks by at most alpha and never grows, the total count never shrinks, and the per-iteration count is zero |
| Sppm.Iteration | final_work/include/renderer_sppm.h:160-250 | one iteration keeps the number of hit points and their validity |
| Sppm.IterationAt | final_work/include/renderer_sppm.h:160-250 | hit point k after an iteration is k credited by the grid built from all hit points, then reduced |
| Sppm.LeastR2Bounds | final_work/include/renderer_sppm.h:238-243 | alpha^n r2 lies in [0, r2] and stays positive when r2 is |
| Sppm.Iterations | final_work/include/renderer_sppm.h:160-251 | the iterations keep the number of hit points and their validity |
| Sppm.IterationsKeep | final_work/include/renderer_sppm.h:160-251 | a hit point keeps its position, normal, material, throughput and pixel, and its total count never shrinks |
| Sppm.IterationsRadius | final_work/include/renderer_sppm.h:236-250 | after n iterations radius^2 lies between alpha^n times its start and its start |
| Sppm.IterationsLast | final_work/include/renderer_sppm.h:160-251 | the last of n iterations, seen from hit point k |
| Sppm.IterationKeeps | final_work/include/renderer_sppm.h:160-250 | one iteration, seen from one hit point, keeps its identity and bounds its radius |
| Sppm.IterationsStep | final_work/include/renderer_sppm.h:160 | iteration iter traces photons iter*photons_per_iter onwards against the grid of the current hit points |
| Sppm.RunIteration | final_work/include/renderer_sppm.h:160-251 | one pass of the loop (rebuild, photons, reduction) advances the hit points by exactly one iteration |
| Sppm.RenderIterations | final_work/include/renderer_sppm.h:160-251 | the loop leaves the hit points after `iterations` iterations |
| Sppm.PhotonCount | final_work/include/renderer_sppm.h:257 | the photon count the radiance divides by is positive |
| Sppm.HitPointBytes | final_work/include/renderer_sppm.h:257-270 | three bytes per hit point; one that gathered no flux is black when the tone map keeps black black |
| Sppm.Paint | final_work/include/renderer_sppm.h:267-270 | only the three bytes of pixel q change |
| Sppm.Painted | final_work/include/renderer_sppm.h:254-271 | the reconstructed buffer has 3 w h bytes |
| Sppm.PaintedUnlit | final_work/include/renderer_sppm.h:254 | a pixel no hit point names keeps its zero bytes |
| Sppm.PaintedOwner | final_work/include/renderer_sppm.h:255-271 | a pixel's bytes are those of the last hit point that names it |
| Sppm.PaintedDistinct | final_work/include/renderer_sppm.h:255-271 | with strictly increasing pixels every hit point owns its three bytes |
| Sppm.HitPointColor | final_work/include/renderer_sppm.h:257-270 | the radiance formula, tone map and gamma give that hit point's three bytes |
| Sppm.PaintablePrefix | final_work/include/renderer_sppm.h:255-271 | a prefix of writable hit points is writable |
| Sppm.WriteBuffer | final_work/include/renderer_sppm.h:254-271 | the buffer is zero, then painted by each hit point in turn |
| Sppm.PixelCount | final_work/include/renderer_sppm.h:254 | the image has w h pixels |
| Sppm.FirstHitsReady | final_work/include/renderer_sppm.h:157-158 | the eye pass's hit points are ready for a grid of hit_points.size() + 1000 buckets |
| Sppm.FinalHits | final_work/include/renderer_sppm.h:160-251 | the loop keeps one hit point per eye-pass hit point |
| Sppm.FirstHitAt | final_work/include/renderer_sppm.h:119-134 | eye-pass hit point k is its own pixel's hit point, with a positive radius |
| Sppm.IterationsPositive | final_work/include/renderer_sppm.h:243 | a positive radius stays positive |
| SppmRender.FinalHitsAt | final_work/include/renderer_sppm.h:160-251 | final hit point k is eye-pass hit point k with new statistics and a positive radius |
| SppmRender.FinalPaintable | final_work/include/renderer_sppm.h:255-271 | the final hit points keep strictly increasing pixels inside the image |
| SppmRender.Rendered | final_work/include/renderer_sppm.h:78-274 | for an image with columns, render_sppm's buffer has 3 w h bytes painted by the final hit points |
| SppmRender.SppmBuffer | final_work/include/renderer_sppm.h:78-274 | for every size with w h >= 0, the buffer has 3 w h bytes: those of the final hit points when the image has columns and rows, and none painted otherwise |
| SppmRender.NoPixelsBlack | final_work/include/renderer_sppm.h:97-99 | with no column or no row (w = 0, or both sizes negative) every byte of the 3 w h is 0 |
| SppmRender.IterateHits | final_work/include/renderer_sppm.h:157-251 | the grid of hit_points.size() + 1000 buckets and the loop leave the iterated hit points |
| SppmRender.EyeAndPhotonPasses | final_work/include/renderer_sppm.h:93-251 | the eye pass then the loop leave the final hit points |
| SppmRender.EyeHits | final_work/include/renderer_sppm.h:93-153 | the eye pass's hit points, in an array |
| SppmRender.RenderSppm | final_work/include/renderer_sppm.h:78-274 | for every size with w h >= 0, render_sppm writes exactly the buffer of its final hit points, and all zeros when no pixel is visited |
| SppmRender.FinalHitsUnfold | final_work/include/renderer_sppm.h:157-251 | the final hit points are `iterations` passes over the eye pass's hit points |
| SppmRender.FirstHitOf | final_work/include/renderer_sppm.h:119-134 | every pixel whose eye path ends on a Lambertian surface has an eye-pass hit point |
| SppmRender.FinalHitLit | final_work/include/renderer_sppm.h:119-134 | every final hit point belongs to a pixel whose eye path ends on a Lambertian surface |
| SppmRender.FinalHitsAvoid | final_work/include/renderer_sppm.h:145-150 | no final hit point belongs to a pixel whose eye path misses every Lambertian surface |
| SppmRender.RenderedUnlit | final_work/include/renderer_sppm.h:254 | a pixel whose eye path does not end on a Lambertian surface is black |
| SppmRender.RenderedLit | final_work/include/renderer_sppm.h:255-270 | a lit pixel shows the bytes of its own hit point as the iterations left it |
| Pm.Keys | final_work/include/renderer_pm.h:31-36 | each photon's bucket is the hash of its own floored cell |
| Pm.Area | final_work/include/renderer_pm.h:72 | the disc area pi r^2 is positive for a positive r^2 |
| Pm.RadiusSquared | final_work/include/renderer_pm.h:44 | r^2 = radius * radius is positive for every non-zero radius |
| Pm.Radiance | final_work/include/renderer_pm.h:70-72 | black when no photon was counted, otherwise the flux over pi r^2 |
| Pm.Probe | final_work/include/renderer_pm.h:46-53 | estimate_radiance probes 27 cells |
| Pm.EntriesCount | final_work/include/renderer_pm.h:54-64 | within one bucket the count grows exactly when some entry passes the distance and direction gate, and the flux changes only with the count |
| Pm.CountedInStep | final_work/include/renderer_pm.h:50-67 | the probe up to cell m counts a photon iff the probe up to m - 1 does or cell m - 1's bucket holds a gated photon |
| Pm.CountZeroIffNoneCounted | final_work/include/renderer_pm.h:42-70 | the count is zero if and only if no probed photon passes the gate, and then the flux is black |
| Pm.EntriesGrow | final_work/include/renderer_pm.h:54-64 | with non-negative powers the sums only grow, and a gated entry adds its whole power and one count |
| Pm.CellsGrow | final_work/include/renderer_pm.h:50-68 | with non-negative powers the sums over the cells only grow |
| Pm.CellContributes | final_work/include/renderer_pm.h:50-68 | a gated photon in a probed cell's bucket contributes its power and one count to the final sums |
| Pm.NearPhotonGathered | final_work/include/renderer_pm.h:46-63 | with cell size twice the radius (renderer_pm.h:261) every photon within the radius that arrives against the normal is counted, its power included in the flux |
| Pm.CollidingCellsCountTwice | final_work/include/renderer_pm.h:50-63 | two probed cells that hash to the same bucket count a gated photon there twice |
| Pm.PhotonMap.constructor | final_work/include/renderer_pm.h:27-29 | size empty buckets with the given cell size |
| Pm.PhotonMap.Hash | final_work/include/renderer_pm.h:75-85 | the bucket is in [0, size) and is the 32-bit wrapped xor hash of the floored cell |
| Pm.PhotonMap.Build | final_work/include/renderer_pm.h:31-37 | each bucket holds, in order, exactly the photons whose cell hashes to it |
| Pm.PhotonMap.EstimateRadiance | final_work/include/renderer_pm.h:41-73 | the loops over the 27 cells return exactly the estimate of the built table |
| Pm.EstimateBlackIffNoPhoton | final_work/include/renderer_pm.h:42-72 | the estimate is black when no probed photon passes the gate, and otherwise is the gated flux over pi radius^2 |
| Pm.Survive | final_work/include/renderer_pm.h:106-111 | up to depth 5 the colour passes unchanged; beyond it the photon survives iff random < p, and p times the new colour is the old one |
| Pm.Glass | final_work/include/renderer_pm.h:137-141 | the cosine against the oriented normal lies in [0, 1] |
| Pm.OrientedCosine | final_work/include/renderer_pm.h:101 | the unit incoming direction never points along the oriented normal |
| Pm.TracePhotonPm | final_work/include/renderer_pm.h:93-161 | a photon below 1e-9 in every channel or leaving the scene stores nothing; at most one photon is stored per hit followed |
| Pm.StoredOnDiffuse | final_work/include/renderer_pm.h:113-116 | every stored photon lies on a diffuse surface the scene reports, with a power of at least 1e-9 in some channel |
| Pm.NoRouletteBeforeFive | final_work/include/renderer_pm.h:108-111 | the random numbers of the first five bounces never change which photons are stored |
| Pm.EyeTraceEstimate | final_work/include/renderer_pm.h:164-166 | a ray that leaves the scene is black |
| Pm.EyeTraceStops | final_work/include/renderer_pm.h:175-184 | a diffuse hit returns its colour times the map estimate with no recursion, whatever the depth or roulette numbers; past max_depth a mirror or glass hit is black |
| Pm.EyeTraceNonNegative | final_work/include/renderer_pm.h:164-218 | with non-negative colours and a non-negative map estimate, every eye path has non-negative radiance |
| Pm.DarkMapDarkImage | final_work/include/renderer_pm.h:175-218 | if the map estimates black everywhere, every eye path is black |
| Pm.NoRouletteBeforeThree | final_work/include/renderer_pm.h:204-213 | from depth 0 the Fresnel roulette numbers of the first three levels are never drawn |
| PathTracer.SkyHeight | final_work/include/renderer_path.h:40-41 | the height of a direction on the sky lies in [0, 1] |
| PathTracer.BackgroundBlend | final_work/include/renderer_path.h:40-42 | each sky channel lies between white and sky blue (0.5, 0.7, 1.0) |
| PathTracer.BackgroundDown | final_work/include/renderer_path.h:40-42 | straight down the sky is white |
| PathTracer.BackgroundUp | final_work/include/renderer_path.h:40-42 | straight up the sky is (0.5, 0.7, 1.0) |
| PathTracer.RayColor | final_work/include/renderer_path.h:13-43 | a ray that misses every object shows the sky |
| PathTracer.RayColorNonNegative | final_work/include/renderer_path.h:13-43 | in a scene of non-negative colours the radiance is never negative |
| PathTracer.RouletteCompensates | final_work/include/renderer_path.h:26-29 | 0.8 times the divided attenuation is the attenuation |
| PathTracer.RouletteOnlyBelow45 | final_work/include/renderer_path.h:25-30 | random numbers drawn at depth 45 and above never change the radiance |
| PathTracer.DepthNeverStops | final_work/include/renderer_path.h:23-32 | no depth, however negative, ends a path: a hit that scatters and survives goes on with the scattered ray |
| PathTracer.AbsorbedHit | final_work/include/renderer_path.h:34-36 | a hit that does not scatter returns its emission plus its attenuation times the ambient (0.1, 0.1, 0.1) |
| PathTracer.PathImage | final_work/include/renderer_path.h:56-89 | the bytes of an image with columns: 3 w h of them |
| PathTracer.PathBuffer | final_work/include/renderer_path.h:56-89 | for every size with w h >= 0, render_path_tracing's buffer has 3 w h bytes |
| PathTracer.PathBufferBytes | final_work/include/renderer_path.h:56-89 | with no column or no row every byte is 0; otherwise byte k is channel k % 3 of the tone-mapped average of its own pixel |
| PathTracer.PixelColor | final_work/include/renderer_path.h:69-79 | the samples loop yields the average of the pixel's samples |
| PathTracer.RenderPathTracing | final_work/include/renderer_path.h:45-93 | for every size with w h >= 0, the buffer written is exactly the path buffer: every byte the quantised average of its own pixel, or all zeros without columns or rows |
| PathTracer.NextRow | final_work/include/renderer_path.h:60-86 | the row below j starts w pixels later, and below row 0 the whole image is written |
| PathTracer.WriteRow | final_work/include/renderer_path.h:68-90 | one image row fills the next 3 w bytes with their pixels' bytes and keeps the rows above |
| PathTracer.WritePixel | final_work/include/renderer_path.h:69-89 | the pixel (i, j) step writes its three tone-mapped bytes at its own index and leaves every earlier byte as it was |
| PathTracer.PixelTarget | final_work/include/renderer_path.h:86-89 | the three bytes at ((h-1-j) w + i) * 3 are pixel (i, j)'s tone-mapped bytes |
| PathTracer.PathImageCoversPixels | final_work/include/renderer_path.h:60-89 | every byte belongs to exactly one pixel (i, j), and holds that pixel's byte |
| BvhSerializer.EncodeVec | final_work/include/bvh_serializer.h:28-30 | a point is written as three doubles |
| BvhSerializer.Encode | final_work/include/bvh_serializer.h:9-36 | every node writes at least its tag |
| BvhSerializer.DecodeVec | final_work/include/bvh_serializer.h:49-52 | a point reads iff three doubles follow, and consumes exactly them |
| BvhSerializer.Decode | final_work/include/bvh_serializer.h:38-56 | a decoded node consumes at least one token |
| BvhSerializer.DecodeVecEncodeVec | final_work/include/bvh_serializer.h:28-30 | a written point reads back, leaving what follows |
| BvhSerializer.DecodeEncode | final_work/include/bvh_serializer.h:9-56 | decoding an encoding followed by anything yields the tree with materials replaced by the loader's and unknown primitives as null, stopping where the encoding ends |
| BvhSerializer.DecodeInSequence | final_work/include/bvh_serializer.h:20-21 | two encodings written back to back decode one after the other, as the left and right subtrees are |
| BvhSerializer.UnknownTagIsNull | final_work/include/bvh_serializer.h:55 | a tag other than 0 or 1 reads as null and consumes only the tag |
| BvhSerializer.DecodedCarries | final_work/include/bvh_serializer.h:53 | every decoded triangle carries the loader's material, and no decoded primitive is of an unknown kind |
| BvhSerializer.NormalizeFixed | final_work/include/bvh_serializer.h:31-35 | a tree survives save and load unchanged iff it has only internal nodes, triangles and nulls and every triangle already has the loader's material |
| BvhSerializer.EncodeNormalize | final_work/include/bvh_serializer.h:22-35 | the encoding does not see materials or the kind of an unknown primitive |
| BvhSerializer.SaveBvhToFile | final_work/include/bvh_serializer.h:58-63 | a file is written iff it can be opened, and then is non-empty |
| BvhSerializer.LoadBvhFromFile | final_work/include/bvh_serializer.h:65-69 | a file that cannot be opened loads as null |
| BvhSerializer.SaveThenLoad | final_work/include/bvh_serializer.h:58-69 | a saved tree loads back as its normalised form; a file that could not be written loads as null |
| MeshLoader.IndexOf | final_work/include/mesh_loader.h:35 | the position of the first '/' in the segment, or its length when there is none |
| MeshLoader.JoinSegments | final_work/include/mesh_loader.h:32 | splitting a face line at its spaces loses nothing but a final space |
| MeshLoader.JoinSplit | final_work/include/mesh_loader.h:32 | a segment, a space and the rest rejoin to the line |
| MeshLoader.SegmentsSplit | final_work/include/mesh_loader.h:32 | the first segment ends at the first space |
| MeshLoader.FaceToken | final_work/include/mesh_loader.h:33-46 | a contributed index is the 32-bit stoi value minus one |
| MeshLoader.FaceTokenForms | final_work/include/mesh_loader.h:34-46 | v, v/vt/vn and v//vn all name vertex v - 1; a slashed token without a number before the slash throws; a slash-free token that is not a number is skipped |
| MeshLoader.IndexOfFirst | final_work/include/mesh_loader.h:35 | a position holding '/' with none before it is the first slash |
| MeshLoader.ScanNoDigits | final_work/include/mesh_loader.h:41-43 | text that starts with a letter holds no number for stoi |
| MeshLoader.FaceIndices | final_work/include/mesh_loader.h:31-47 | a face line yields at most one index per segment |
| MeshLoader.FaceIndicesStep | final_work/include/mesh_loader.h:32-47 | one more segment extends the indices, or throws |
| MeshLoader.EmptySegmentsSkipped | final_work/include/mesh_loader.h:33 | empty segments from doubled spaces change nothing |
| MeshLoader.FaceThrowSticks | final_work/include/mesh_loader.h:38 | once a segment throws, the whole face throws |
| MeshLoader.Fan | final_work/include/mesh_loader.h:48-57 | k corners give k - 2 triangles, all sharing corner 0 and the loader's material, each sharing an edge with the next |
| MeshLoader.LineStep | final_work/include/mesh_loader.h:22-59 | lines other than v and f lines change nothing; a v line appends the scaled and offset vertex; a face only appends triangles with the loader's material |
| MeshLoader.FaceLine | final_work/include/mesh_loader.h:28-58 | a face of k >= 3 readable in-range indices adds exactly its k - 2 fan triangles and keeps the vertices; with fewer it adds none |
| MeshLoader.StopSticks | final_work/include/mesh_loader.h:22-60 | once a line stops the load, the whole file stops for that reason |
| MeshLoader.LoadObjSpec | final_work/include/mesh_loader.h:15-19 | a file that cannot be opened gives an empty list |
| MeshLoader.LoadedCarry | final_work/include/mesh_loader.h:51-56 | every loaded triangle carries the loader's material |
| MeshLoader.OtherLinesIgnored | final_work/include/mesh_loader.h:23-28 | normals, texture coordinates, comments and other lines can be dropped without changing the result |
| MeshLoader.ParseFace | final_work/include/mesh_loader.h:29-47 | the segment loop yields exactly the face's indices |
| MeshLoader.AppendFan | final_work/include/mesh_loader.h:48-57 | the triangulation loop appends exactly the fan |
| MeshLoader.LoadLinesStep | final_work/include/mesh_loader.h:22-60 | reading one more line is one more step of the line loop |
| MeshLoader.LoadObj | final_work/include/mesh_loader.h:11-63 | load_obj returns exactly the triangles of the file's faces in order, or an empty list for a file it cannot open |
| Textures.EmptyImage | final_work/include/texture.hpp:42-43 | the default image texture has no data |
| Textures.LoadImage | final_work/include/texture.hpp:45-57 | an unreadable file leaves no data and a 0 x 0 size; otherwise the decoded pixels and size, with 3 w bytes per row |
| Textures.TexelColumn | final_work/include/texture.hpp:70-77 | the column read lies in [0, width) |
| Textures.TexelRow | final_work/include/texture.hpp:71-78 | the row read lies in [0, height) |
| Textures.ScaledIndex | final_work/include/texture.hpp:73-74 | int(x n) lies in [0, n] for x in [0, 1] |
| Textures.TexelOffsetInRange | final_work/include/texture.hpp:81 | the texel's three bytes lie inside the image data |
| Textures.ImageValue | final_work/include/texture.hpp:64-67 | without data the texture is magenta (1, 0, 1) |
| Textures.SolidColorUniform | final_work/include/texture.hpp:27-29 | a solid colour is the same at every (u, v) and point |
| Textures.FailedLoadMagenta | final_work/include/texture.hpp:51-54 | a texture whose file could not be read is magenta everywhere |
| Textures.TexelCorners | final_work/include/texture.hpp:69-78 | v is flipped: v >= 1 reads row 0 and v <= 0 the last row; u <= 0 reads column 0 and u >= 1 the last column |
| Textures.ColumnMonotone | final_work/include/texture.hpp:70-77 | a larger u never reads a column further left |
| Textures.RowMonotone | final_work/include/texture.hpp:71-78 | a larger v never reads a row further down |
| Textures.ImageChannelsUnit | final_work/include/texture.hpp:80-83 | every channel of an image texture lies in [0, 1] |
| CommandLine.FixHeight | final_work/src/main.cpp:60 | only the height changes, and only when it is 0 |
| CommandLine.ParseArguments | final_work/src/main.cpp:43-58 | the argument loop, with the filename option guarded like the others, yields exactly the settings read |
| CommandLine.NoArguments | final_work/src/main.cpp:36-40 | without options: mode pt, output.ppm, 400 x 225, 100 samples |
| CommandLine.FilenameFlagLast | final_work/src/main.cpp:47-48 | as written, -o in last position reads past the end of argv; guarded, it is ignored |
| CommandLine.GuardedNeverNull | final_work/src/main.cpp:43-58 | guarded, no argument list reads past the end of argv |
| CommandLine.GuardAgrees | final_work/src/main.cpp:45-56 | wherever the as-written loop stays inside argv, the guard changes nothing |
| CommandLine.LastOccurrenceWins | final_work/src/main.cpp:43-58 | of repeated options the last one wins |
| CommandLine.ValueNotInspected | final_work/src/main.cpp:43-57 | at every position, a recognised option with a next argument consumes it: the parse goes on two further with the value stored as is (or fails where atoi or the cast is undefined), so the value is never read as an option |
| CommandLine.OptionAsValue | final_work/src/main.cpp:45-46 | `-m -w` runs in mode "-w" with the other defaults |
| CommandLine.HeightForFits | final_work/src/main.cpp:51 | int(w / (16/9)) of an int is an int with the sign of w |
| CommandLine.WidthForSign | final_work/src/main.cpp:54 | int(h * 16/9) has the sign of h |
| CommandLine.ParseKeepsSizes | final_work/src/main.cpp:43-58 | every option keeps the sizes and samples ints, and the sizes of one sign |
| CommandLine.SettingsSized | final_work/src/main.cpp:43-60 | main renders with int sizes and samples, and sizes whose product is not negative, which is what the renderers require |
| CommandLine.SizeRoundTrip | final_work/src/main.cpp:49-54 | -w 16k gives height 9k and -h 9k gives width 16k |
| CommandLine.ZeroHeightOnlyForTinyWidth | final_work/src/main.cpp:60 | after the fix the height is 0 iff it was 0 and the width is -1, 0 or 1 |
| CommandLine.Dispatch | final_work/src/main.cpp:163-172 | mode sppm, and only it, runs SPPM with 10 passes of 10000 photons from radius 0.1; every other mode runs path tracing with the samples option; both at max depth 50 |
| CameraControls.ConstrainPitch | lab2/Camera.hpp:94-99 | the pitch is kept in [-89, 89]: unchanged inside, 89 above, -89 below |
| CameraControls.ScrollZoom | lab2/Camera.hpp:105-111 | the zoom is kept in [1, 45] and moves by exactly -yoffset when that stays inside |
| CameraControls.ScrollBack | lab2/Camera.hpp:105-111 | scrolling back by the same offset inside [1, 45] restores the zoom |
| Lab2Camera.OppositeMovesCancel | lab2/Camera.hpp:74-84 | a forward then a backward move (or left then right) of the same velocity returns to the start; forward moves by velocity times front |
| Lab2Camera.Camera.constructor | lab2/Camera.hpp:37-50 | position, world up and angles as given, speed 2.5, sensitivity 0.1, zoom 45, the frame of the angles |
| Lab2Camera.Camera.FromScalars | lab2/Camera.hpp:52-64 | position and world up from the scalars, the angles as given, the default speed, sensitivity and zoom |
| Lab2Camera.Camera.UpdateCameraVectors | lab2/Camera.hpp:114-124 | front, right and up become the frame of the angles; nothing else changes |
| Lab2Camera.Camera.ProcessKeyboard | lab2/Camera.hpp:74-84 | only the position moves, by speed times delta time along front or right |
| Lab2Camera.Camera.ProcessMouseMovement | lab2/Camera.hpp:86-103 | yaw and pitch grow by the scaled offsets, the pitch constrained to [-89, 89] when asked, and the frame follows |
| Lab2Camera.Camera.ProcessMouseScroll | lab2/Camera.hpp:105-111 | only the zoom changes, to the clamped scroll |
| Lab2Camera.ForwardThenBackward | lab2/Camera.hpp:74-84 | a forward and a backward key press of the same length leave the camera where it was |
| Lab3Camera.UpDownCancel | lab3/src/Camera.cpp:42-45 | an up then a down move of the same velocity returns to the start; up moves by velocity times the up vector |
| Lab3Camera.Camera.constructor | lab3/src/Camera.cpp:3-13 | position, world up and angles as given, speed 2.5, sensitivity 0.1, zoom 90 |
| Lab3Camera.Camera.FromScalars | lab3/src/Camera.cpp:15-26 | every scalar is ignored: the camera starts at the origin with world up (0, 1, 0), yaw -90 and pitch -15 |
| Lab3Camera.Camera.UpdateCameraVectors | lab3/src/Camera.cpp:72-82 | front, right and up become the frame of the angles; nothing else changes |
| Lab3Camera.Camera.ProcessKeyboard | lab3/src/Camera.cpp:32-46 | only the position moves, along front, right or up |
| Lab3Camera.Camera.ProcessMouseMovement | lab3/src/Camera.cpp:48-64 | yaw and pitch grow by the scaled offsets, the pitch constrained when asked, and the frame follows |
| Lab3Camera.Camera.ProcessMouseScroll | lab3/src/Camera.cpp:66-70 | only the zoom changes, to the clamped scroll |
| Lab3Camera.FirstScrollDropsDefaultZoom | lab4/src/Camera.hpp:16 | the default zoom 90 lies above the scroll clamp, so the first scroll (by less than 45) brings it to 45 |
| NumberParsing.LeadingSpaces | final_work/include/mesh_loader.h:41 | the white space stoi skips: all of it, and no more |
| NumberParsing.LeadingDigits | final_work/include/mesh_loader.h:41 | the digits stoi reads: all of them, and no more |
| NumberParsing.Decimal | final_work/include/mesh_loader.h:41 | a decimal form is a non-empty string of digits |
| NumberParsing.ToString | final_work/include/mesh_loader.h:41 | a signed decimal form starts with a digit or '-' and holds no space or '/' |
| NumberParsing.StoI | final_work/include/mesh_loader.h:38-44 | stoi succeeds iff digits follow the white space and sign and their value fits a 32-bit int, and then returns that value |
| NumberParsing.Atoi | final_work/src/main.cpp:50-56 | atoi gives 0 when no digit follows, the value when it fits a 32-bit int, and is undefined otherwise |
| NumberParsing.ValueDecimal | final_work/include/mesh_loader.h:41 | the value of n's decimal digits is n |
| NumberParsing.ScanToString | final_work/include/mesh_loader.h:41 | the scan reads back any integer written in decimal, whatever non-digit text follows |
| NumberParsing.ScanSigned | final_work/include/mesh_loader.h:41 | a leading '-' negates what the scan reads |
| NumberParsing.ScanDigits | final_work/include/mesh_loader.h:41 | a decimal form followed by a non-digit scans as its value |
| NumberParsing.LeadingDigitsOf | final_work/include/mesh_loader.h:41 | digits followed by a non-digit are read in full |
| NumberParsing.StoIToString | final_work/include/mesh_loader.h:38-44 | stoi reads back every 32-bit int written in decimal, and throws for every value out of range |
| NumberParsing.AtoiToString | final_work/src/main.cpp:50-56 | atoi reads back every 32-bit int written in decimal, and reads the empty string as 0 |

## Left out

- Parallelism: the OpenMP `parallel for`, `critical` and `atomic` sections run as sequential loops. The order-independence lemmas above stand in for the atomic additions.
- Floating point: every `double` and `float` is a real, with no rounding, overflow, NaN or infinity. The 32-bit integer wrap of the hash functions and the int range of `stoi`/`atoi` are modelled explicitly.
- The square root, `aces_approx`, `random_double`, `random_unit_vector`, `random_in_unit_sphere` and the cosine hemisphere sample of `trace_photon_pm` are inputs. Each random draw is indexed by pixel, photon and depth.
- `vec3.h`, `aabb.h` and `bvh.h` are not part of this model. Vector operations, reflection and refraction use the conventional formulas. Boxes are six reals and their union is component-wise min/max. BVH construction is not modelled.
- `camera.h` is not part of this model: each pixel's camera ray is an input.
- `get_sphere_uv` (acos/atan2) is an input function of the outward normal.
- Lab cameras: `updateCameraVectors` (cosines, sines, cross products, normalisation) is a function from yaw, pitch and world up to the frame, given at construction. `GetViewMatrix` (glm::lookAt) is left out.
- lab3/src/Camera.hpp is not part of this model. The lab3 constants (pitch -15, zoom 90, the movement set with UP and DOWN) are taken from lab4/src/Camera.hpp, which declares the same class.
- The OpenGL programs, window and shader code, `stbi_load` and the `.ppm` writing loop of `main.cpp` are I/O.
- File I/O: `std::ifstream` and `std::ofstream` become `Option` values. A file is its lines (OBJ), its token stream (BVH cache) or its decoded pixels (textures). `BvhSerializer` reads the byte stream as a sequence of tagged tokens (32-bit ints and doubles), not raw bytes.
- `MeshLoader.LineStep`: the extraction of three doubles from a `v` line (`s >> x >> y >> z`) is an input function.
- The scene list holds spheres and triangles. Planes, nested lists and BVH nodes are not list members, although `Planes.Hit` is modelled.
- Rays without a direction: the scene oracle reports no hit for them (`RendererCommon.DirectedHits`), since the primitive tests divide by the squared length. Otherwise a path that reaches a zero direction ends there.
- `PathTracer.RayColor` and `Pm.TracePhotonPm` recurse without a depth bound in the source. A `fuel` parameter bounds the number of hits followed, and a path that runs out of fuel is black or stores nothing.
- `Sppm.Roulette`: when every attenuation channel is 0 the source divides by p = 0. The model stops the photon there.
- `PathTracer.RenderPathTracing` requires `samples_per_pixel != 0`, because the source divides by it.
- `CommandLine.HeightFor` and `CommandLine.WidthFor` use the exact ratio 16/9 rather than its double rounding.
- `CommandLine.ReadSettings`: an `atoi` out of the int range, a `static_cast<int>(height * (16.0/9.0))` whose value does not fit an int (`-h 2000000000`), and a filename read past the end of argv are undefined behaviour in C++. The model reports them as a failure. The cast of the width by 9/16 always fits (`CommandLine.HeightForFits`).
- `PathTracer.RenderPathTracing`: `image_width * image_height * 3` and the pixel index `((h-1-j) w + i) * 3` are 32-bit `int` products in the source, which overflow (undefined behaviour) once 3 w h exceeds 2^31 - 1, e.g. for `-w 40000`. The model computes them as unbounded integers, which agrees with the source whenever 3 w h fits an int.
- `PathTracer.PathBuffer`: the same unbounded products as `RenderPathTracing`.
- `SppmRender.RenderSppm`: `image_width * image_height` (the reserve), `image_width * image_height * 3` (the assign), the pixel index and `pixel_index * 3` are 32-bit products in the source, with the same overflow for 3 w h above 2^31 - 1. The model computes them as unbounded integers.
- `SppmRender.SppmBuffer`: the same unbounded products as `RenderSppm`.
- `PathTracer.RenderPathTracing` and `SppmRender.RenderSppm` require `w * h >= 0`, which every size main passes meets (`CommandLine.SettingsSized`). A direct call with sizes of opposite signs makes `resize`/`reserve` throw `std::length_error` in the source, which is not modelled. With a 0 width and a positive height the source still runs the row loop, whose pixel loops are empty; the model skips that loop.
- `Spheres`: the outward normal, the record and the hit require `radius != 0`, and `Planes.MakePlane` requires a non-zero normal, because the source divides by the radius and by the normal's length there (floating-point division by zero).
- `MeshLoader.LoadLines`: a face index outside the vertex list is undefined behaviour in C++, and the model stops the load there. A `stoi` that throws on a slashed token also stops the load, because the exception leaves `load_obj`.
- `Ppm`: the world queries, light sampling and recursion of `trace_eye_path` and `trace_photon_ppm` are not modelled. Only their Fresnel weights (`Fresnel`) and the grid, update, reduction and reconstruction are.
- `Pm`: the driver loops of `render_pm` (photon emission, the eye pass over pixels and the buffer write) are not modelled. Its map construction, estimate, photon tracer and eye tracer are. The buffer arithmetic is the shared `FrameBuffer`.
- `Pm.EyeTraceEstimate`: the map estimate is an input function of the hit point and the oriented normal. `Pm.PhotonMap.EstimateRadiance` is proved equal to the estimate of the built table.
- `Scenes.HittableObjList.Hit` takes the record before the call as an argument and returns the new record, instead of updating the `rec` out-parameter. It also requires a ray with a direction.

## Findings

| source | as written | input that shows it | evidently intended | confidence | as-written member | corrected member |
|---|---|---|---|---|---|---|
| final_work/include/renderer_ppm.h:284-286 | the grid cell size is twice the radius of `hit_points[0]`, but radii shrink at different rates, so other hit points can have larger radii | two hit points at the origin with normal (0, 1, 0) and r2 = 0.04 and r2 = 1, and a photon at (0.9, 0, 0) arriving straight down: the cell size is 0.4, the second hit point's cell is two cells from the photon's, and `update` skips it although the photon is within its radius | a cell size that covers every hit point's radius, e.g. twice the largest radius | not executed | Ppm.FirstRadiusGridSkipsCell | Ppm.CoveringGridComplete |
| final_work/src/main.cpp:47 | the filename test mixes logical or and logical and without parentheses, so it reads as "-o, or --out with a next argument", and `-o` takes `argv[i + 1]` even as the last argument | `prog -o`: `argv[2]` is the null pointer, and building a `std::string` from it is undefined | both spellings require a next argument, like the other options | not executed | CommandLine.FilenameFlagLast | CommandLine.GuardedNeverNull |
