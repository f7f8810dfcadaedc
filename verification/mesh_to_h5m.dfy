/**
  The in-memory conversion of a surface-meshed CAD model into the arrays
  handed to the DAGMC h5m writer (`mesh_to_h5m_in_memory_method` and its
  caller `brep_to_h5m` in `src/cad_to_dagmc/brep_to_h5m.py`).

  The meshing engine's queries are replaced by the values they return,
  gathered in a `Mesh`: the surfaces read back for each volume, the node tags
  of each surface's elements (one flat list per element type), and the flat
  coordinate array. Coordinates are an opaque type `C`.
 */
module MeshToH5m {
  import opened Chunking

  /** Vertices per triangle, and coordinates per vertex. */
  const TriangleSize: nat := 3

  /** An entity of the mesh: its dimension and its tag. */
  datatype DimTag = DimTag(dim: int, tag: int)

  /**
    The `material_tags` argument: the intended list of strings, or a single
    string (which Python would otherwise happily iterate character by character).
   */
  datatype MaterialTags = TagList(tags: seq<string>) | TagString(text: string)

  /** What the meshing engine reports about a meshed model. */
  datatype Mesh<C> = Mesh(
    surfacesOfVolume: int -> seq<int>,      // surfaces read back from a volume's physical group
    elementNodeTags: int -> seq<seq<int>>,  // per element type, flat 1-based node tags
    nodeCoords: seq<C>)                     // flat x, y, z, x, y, z, ... array

  datatype ConversionError =
    | MaterialTagsIsString
    | VolumeCountMismatch(volumes: nat, materialTags: nat)
    | SurfaceWithoutElements(surface: int)

  datatype Result<T> = Ok(value: T) | Err(error: ConversionError)

  /** The arguments given to the h5m writer. */
  datatype WriterInput<C> = WriterInput(
    vertices: seq<seq<C>>,
    triangles: seq<seq<seq<int>>>,
    materialTags: seq<string>,
    h5mFilename: string)

  /** What the conversion passes to the writer and what it returns to its caller. */
  datatype Conversion<C> = Conversion(written: WriterInput<C>, returned: string)

  // ---------------------------------------------------------------------------
  // Declarative description of the output

  /** A surface has at least one element type, so `nodeTags[0]` exists. */
  predicate Meshed<C>(mesh: Mesh<C>, surface: int) {
    mesh.elementNodeTags(surface) != []
  }

  predicate VolumeMeshed<C>(mesh: Mesh<C>, vol: int) {
    forall k :: 0 <= k < |mesh.surfacesOfVolume(vol)| ==> Meshed(mesh, mesh.surfacesOfVolume(vol)[k])
  }

  predicate AllMeshed<C>(mesh: Mesh<C>, surfaces: seq<int>) {
    forall k :: 0 <= k < |surfaces| ==> Meshed(mesh, surfaces[k])
  }

  /** The inputs on which the conversion succeeds. */
  predicate Accepted<C>(volumes: seq<DimTag>, materialTags: MaterialTags, mesh: Mesh<C>) {
    && materialTags.TagList?
    && |volumes| == |materialTags.tags|
    && forall v :: 0 <= v < |volumes| ==> VolumeMeshed(mesh, volumes[v].tag)
  }

  /** `surface` is the first surface of the list that has no elements. */
  predicate FirstUnmeshedIn<C>(mesh: Mesh<C>, surfaces: seq<int>, surface: int) {
    exists k :: 0 <= k < |surfaces| && surfaces[k] == surface
                && !Meshed(mesh, surface) && AllMeshed(mesh, surfaces[..k])
  }

  /**
    `surface` is the first surface without elements met when walking the
    volumes in order and each volume's surfaces in order, and it lies on
    volume `v`.
   */
  predicate FirstUnmeshedAt<C>(mesh: Mesh<C>, volumes: seq<DimTag>, v: int, surface: int)
    requires 0 <= v < |volumes|
  {
    && (forall u :: 0 <= u < v ==> VolumeMeshed(mesh, volumes[u].tag))
    && FirstUnmeshedIn(mesh, mesh.surfacesOfVolume(volumes[v].tag), surface)
  }

  /** The node tags of the first element type of a surface. */
  function SurfaceNodeTags<C>(mesh: Mesh<C>, surface: int): (nodeTags: seq<int>)
    requires Meshed(mesh, surface)
  {
    mesh.elementNodeTags(surface)[0]
  }

  /** Gmsh's 1-based node tags renumbered to 0-based vertex indices. */
  function ShiftNodeTags(nodeTags: seq<int>): (indices: seq<int>)
    ensures |indices| == |nodeTags|
    ensures forall i :: 0 <= i < |nodeTags| ==> indices[i] == nodeTags[i] - 1
  {
    if nodeTags == [] then [] else [nodeTags[0] - 1] + ShiftNodeTags(nodeTags[1..])
  }

  /** The triangles of one surface: its shifted node tags in groups of three. */
  function SurfaceTriangles<C>(mesh: Mesh<C>, surface: int): (triangles: seq<seq<int>>)
    requires Meshed(mesh, surface)
  {
    Chunk(ShiftNodeTags(SurfaceNodeTags(mesh, surface)), TriangleSize)
  }

  /** The triangles of a list of surfaces, surface after surface. */
  function SurfacesTriangles<C>(mesh: Mesh<C>, surfaces: seq<int>): (triangles: seq<seq<int>>)
    requires AllMeshed(mesh, surfaces)
  {
    if surfaces == [] then []
    else SurfacesTriangles(mesh, surfaces[..|surfaces| - 1])
         + SurfaceTriangles(mesh, surfaces[|surfaces| - 1])
  }

  /** The node tags of a list of surfaces, surface after surface. */
  function SurfacesNodeTags<C>(mesh: Mesh<C>, surfaces: seq<int>): (nodeTags: seq<int>)
    requires AllMeshed(mesh, surfaces)
  {
    if surfaces == [] then []
    else SurfacesNodeTags(mesh, surfaces[..|surfaces| - 1])
         + SurfaceNodeTags(mesh, surfaces[|surfaces| - 1])
  }

  /**
    The triangle list of one volume: the triangles of its surfaces, which
    concatenated are those surfaces' node tags, in order, each minus one.
   */
  function VolumeTriangles<C>(mesh: Mesh<C>, vol: int): (triangles: seq<seq<int>>)
    requires VolumeMeshed(mesh, vol)
    ensures Flatten(triangles) == ShiftNodeTags(SurfacesNodeTags(mesh, mesh.surfacesOfVolume(vol)))
  {
    SurfacesTrianglesFromNodeTags(mesh, mesh.surfacesOfVolume(vol));
    SurfacesTriangles(mesh, mesh.surfacesOfVolume(vol))
  }

  /**
    The coordinates grouped per vertex: concatenated they give back the flat
    coordinate array, and each vertex holds three coordinates, the last
    possibly fewer.
   */
  function Vertices<C>(mesh: Mesh<C>): (vertices: seq<seq<C>>)
    ensures Flatten(vertices) == mesh.nodeCoords
    ensures forall i :: 0 <= i < |vertices| ==> 0 < |vertices[i]| <= TriangleSize
    ensures forall i :: 0 <= i < |vertices| - 1 ==> |vertices[i]| == TriangleSize
  {
    ChunkRoundTrip(mesh.nodeCoords, TriangleSize);
    ChunkSizes(mesh.nodeCoords, TriangleSize);
    Chunk(mesh.nodeCoords, TriangleSize)
  }

  // ---------------------------------------------------------------------------
  // The conversion, loop for loop

  /**
    Validates the arguments, renumbers and groups the triangles of every
    volume, groups the coordinates, and returns what the writer receives.
   */
  method MeshToH5mInMemory<C>(volumes: seq<DimTag>, materialTags: MaterialTags, h5mFilename: string, mesh: Mesh<C>)
    returns (r: Result<Conversion<C>>)
    ensures materialTags.TagString? ==> r.Err? && r.error == MaterialTagsIsString
    ensures materialTags.TagList? && |volumes| != |materialTags.tags| ==>
              r.Err? && r.error == VolumeCountMismatch(|volumes|, |materialTags.tags|)
    ensures r.Ok? <==> Accepted(volumes, materialTags, mesh)
    ensures materialTags.TagList? && |volumes| == |materialTags.tags| && !Accepted(volumes, materialTags, mesh) ==>
              r.Err? && r.error.SurfaceWithoutElements?
    ensures r.Err? && r.error.SurfaceWithoutElements? ==>
              exists v :: 0 <= v < |volumes| && FirstUnmeshedAt(mesh, volumes, v, r.error.surface)
    ensures r.Ok? ==>
              && r.value.returned == h5mFilename
              && r.value.written.h5mFilename == h5mFilename
              && r.value.written.materialTags == materialTags.tags
              && r.value.written.vertices == Vertices(mesh)
              && |r.value.written.triangles| == |volumes|
              && forall v :: 0 <= v < |volumes| ==>
                   r.value.written.triangles[v] == VolumeTriangles(mesh, volumes[v].tag)
  {
    if materialTags.TagString? {
      return Err(MaterialTagsIsString);
    }
    var tags := materialTags.tags;
    if |volumes| != |tags| {
      return Err(VolumeCountMismatch(|volumes|, |tags|));
    }

    var nodesInEachVolume: seq<seq<seq<int>>> := [];
    var i := 0;
    while i < |volumes|
      invariant 0 <= i <= |volumes|
      invariant |nodesInEachVolume| == i
      invariant forall v :: 0 <= v < i ==>
                  VolumeMeshed(mesh, volumes[v].tag)
                  && nodesInEachVolume[v] == VolumeTriangles(mesh, volumes[v].tag)
    {
      var nodesInAllSurfaces := CollectVolumeTriangles(mesh, mesh.surfacesOfVolume(volumes[i].tag));
      if nodesInAllSurfaces.Err? {
        assert !VolumeMeshed(mesh, volumes[i].tag);
        assert FirstUnmeshedAt(mesh, volumes, i, nodesInAllSurfaces.error.surface);
        return Err(nodesInAllSurfaces.error);
      }
      nodesInEachVolume := nodesInEachVolume + [nodesInAllSurfaces.value];
      i := i + 1;
    }

    var groupedCoords := Chunk(mesh.nodeCoords, TriangleSize);
    var written := WriterInput(groupedCoords, nodesInEachVolume, tags, h5mFilename);
    return Ok(Conversion(written, h5mFilename));
  }

  /**
    The loop over one volume's surfaces: renumber each surface's node tags,
    group them into triangles and append them, stopping at the first surface
    without elements.
   */
  method CollectVolumeTriangles<C>(mesh: Mesh<C>, surfaces: seq<int>) returns (r: Result<seq<seq<int>>>)
    ensures r.Ok? <==> AllMeshed(mesh, surfaces)
    ensures r.Ok? ==> r.value == SurfacesTriangles(mesh, surfaces)
    ensures r.Err? ==> r.error.SurfaceWithoutElements? && FirstUnmeshedIn(mesh, surfaces, r.error.surface)
  {
    var nodesInAllSurfaces: seq<seq<int>> := [];
    var j := 0;
    while j < |surfaces|
      invariant 0 <= j <= |surfaces|
      invariant AllMeshed(mesh, surfaces[..j])
      invariant nodesInAllSurfaces == SurfacesTriangles(mesh, surfaces[..j])
    {
      var byType := mesh.elementNodeTags(surfaces[j]);
      if byType == [] {
        assert FirstUnmeshedIn(mesh, surfaces, surfaces[j]);
        return Err(SurfaceWithoutElements(surfaces[j]));
      }
      var nodeTags := byType[0];
      var shifted: seq<int> := [];
      var t := 0;
      while t < |nodeTags|
        invariant 0 <= t <= |nodeTags|
        invariant |shifted| == t
        invariant forall k :: 0 <= k < t ==> shifted[k] == nodeTags[k] - 1
      {
        shifted := shifted + [nodeTags[t] - 1];
        t := t + 1;
      }
      assert shifted == ShiftNodeTags(nodeTags);
      var grouped := Chunk(shifted, TriangleSize);
      assert surfaces[..j + 1][..j] == surfaces[..j];
      nodesInAllSurfaces := nodesInAllSurfaces + grouped;
      j := j + 1;
    }
    assert surfaces[..j] == surfaces;
    return Ok(nodesInAllSurfaces);
  }

  /**
    The whole pipeline once the Brep file has been meshed: the conversion
    decides the outcome and the filename comes back unchanged.
   */
  method BrepToH5m<C>(volumes: seq<DimTag>, materialTags: MaterialTags, h5mFilename: string, mesh: Mesh<C>)
    returns (r: Result<string>)
    ensures r.Ok? <==> Accepted(volumes, materialTags, mesh)
    ensures r.Ok? ==> r.value == h5mFilename
    ensures materialTags.TagString? ==> r.Err? && r.error == MaterialTagsIsString
    ensures materialTags.TagList? && |volumes| != |materialTags.tags| ==>
              r.Err? && r.error == VolumeCountMismatch(|volumes|, |materialTags.tags|)
    ensures materialTags.TagList? && |volumes| == |materialTags.tags| && !Accepted(volumes, materialTags, mesh) ==>
              r.Err? && r.error.SurfaceWithoutElements?
              && exists v :: 0 <= v < |volumes| && FirstUnmeshedAt(mesh, volumes, v, r.error.surface)
  {
    var c := MeshToH5mInMemory(volumes, materialTags, h5mFilename, mesh);
    match c
    case Ok(conversion) => return Ok(conversion.returned);
    case Err(e) => return Err(e);
  }

  // ---------------------------------------------------------------------------
  // Properties of the output

  /** Renumbering distributes over concatenation. */
  lemma ShiftConcat(a: seq<int>, b: seq<int>)
    ensures ShiftNodeTags(a + b) == ShiftNodeTags(a) + ShiftNodeTags(b)
  {
    var ab := a + b;
    var l, sa, sb := ShiftNodeTags(ab), ShiftNodeTags(a), ShiftNodeTags(b);
    var r := sa + sb;
    assert |l| == |r|;
    forall i | 0 <= i < |l|
      ensures l[i] == r[i]
    {
      if i < |a| {
        assert ab[i] == a[i];
        assert r[i] == sa[i] == a[i] - 1;
      } else {
        assert ab[i] == b[i - |a|];
        assert r[i] == sb[i - |a|] == b[i - |a|] - 1;
      }
    }
    assert l == r;
  }

  /** A surface's triangles, concatenated, are its node tags each minus one. */
  lemma SurfaceTrianglesRoundTrip<C>(mesh: Mesh<C>, surface: int)
    requires Meshed(mesh, surface)
    ensures Flatten(SurfaceTriangles(mesh, surface)) == ShiftNodeTags(SurfaceNodeTags(mesh, surface))
  {
    ChunkRoundTrip(ShiftNodeTags(SurfaceNodeTags(mesh, surface)), TriangleSize);
  }

  /** Entry `j` of triangle `i` of a surface is its node tag `3 * i + j` minus one. */
  lemma SurfaceTrianglePositions<C>(mesh: Mesh<C>, surface: int)
    requires Meshed(mesh, surface)
    ensures forall i, j :: 0 <= i < |SurfaceTriangles(mesh, surface)| && 0 <= j < |SurfaceTriangles(mesh, surface)[i]| ==>
              SurfaceTriangles(mesh, surface)[i][j] == SurfaceNodeTags(mesh, surface)[TriangleSize * i + j] - 1
  {
    var nodeTags := SurfaceNodeTags(mesh, surface);
    var shifted := ShiftNodeTags(nodeTags);
    var tris := SurfaceTriangles(mesh, surface);
    forall i, j | 0 <= i < |tris| && 0 <= j < |tris[i]|
      ensures tris[i][j] == nodeTags[TriangleSize * i + j] - 1
    {
      assert tris[i][j] == shifted[i * TriangleSize + j];
    }
  }

  /** When a surface's tag count is a multiple of three, every triangle has three vertices. */
  lemma SurfaceTrianglesFull<C>(mesh: Mesh<C>, surface: int)
    requires Meshed(mesh, surface) && |SurfaceNodeTags(mesh, surface)| % TriangleSize == 0
    ensures forall i :: 0 <= i < |SurfaceTriangles(mesh, surface)| ==> |SurfaceTriangles(mesh, surface)[i]| == TriangleSize
  {
    ChunkFull(ShiftNodeTags(SurfaceNodeTags(mesh, surface)), TriangleSize);
  }

  /** The triangles of a surface list split along any split of the list, in order. */
  lemma {:induction false} SurfacesTrianglesConcat<C>(mesh: Mesh<C>, a: seq<int>, b: seq<int>)
    requires AllMeshed(mesh, a + b)
    ensures AllMeshed(mesh, a) && AllMeshed(mesh, b)
    ensures SurfacesTriangles(mesh, a + b) == SurfacesTriangles(mesh, a) + SurfacesTriangles(mesh, b)
    decreases |b|
  {
    AllMeshedSplit(mesh, a, b);
    if b == [] {
      assert a + b == a;
    } else {
      var b', last := b[..|b| - 1], b[|b| - 1];
      assert b == b' + [last];
      assert a + b == (a + b') + [last];
      AllMeshedSplit(mesh, a + b', [last]);
      AllMeshedSplit(mesh, b', [last]);
      SurfacesTrianglesConcat(mesh, a, b');
      SurfacesTrianglesSnoc(mesh, a + b', last);
      SurfacesTrianglesSnoc(mesh, b', last);
    }
  }

  lemma AllMeshedSplit<C>(mesh: Mesh<C>, a: seq<int>, b: seq<int>)
    requires AllMeshed(mesh, a + b)
    ensures AllMeshed(mesh, a) && AllMeshed(mesh, b)
  {
    forall k | 0 <= k < |a| ensures Meshed(mesh, a[k]) {
      assert a[k] == (a + b)[k];
    }
    forall k | 0 <= k < |b| ensures Meshed(mesh, b[k]) {
      assert b[k] == (a + b)[|a| + k];
    }
  }

  lemma SurfacesTrianglesSnoc<C>(mesh: Mesh<C>, surfaces: seq<int>, last: int)
    requires AllMeshed(mesh, surfaces) && Meshed(mesh, last)
    ensures AllMeshed(mesh, surfaces + [last])
    ensures SurfacesTriangles(mesh, surfaces + [last])
            == SurfacesTriangles(mesh, surfaces) + SurfaceTriangles(mesh, last)
  {
    var ss := surfaces + [last];
    assert ss[..|ss| - 1] == surfaces;
    assert ss[|ss| - 1] == last;
    forall k | 0 <= k < |ss| ensures Meshed(mesh, ss[k]) {
      if k < |surfaces| {
        assert ss[k] == surfaces[k];
      }
    }
  }

  /**
    A volume's triangles, concatenated, are the node tags of its adjacent
    surfaces, in surface order, each minus one.
   */
  lemma {:induction false} SurfacesTrianglesFromNodeTags<C>(mesh: Mesh<C>, surfaces: seq<int>)
    requires AllMeshed(mesh, surfaces)
    ensures Flatten(SurfacesTriangles(mesh, surfaces)) == ShiftNodeTags(SurfacesNodeTags(mesh, surfaces))
    decreases |surfaces|
  {
    if surfaces != [] {
      var init, last := surfaces[..|surfaces| - 1], surfaces[|surfaces| - 1];
      assert AllMeshed(mesh, init);
      SurfacesTrianglesFromNodeTags(mesh, init);
      FlattenConcat(SurfacesTriangles(mesh, init), SurfaceTriangles(mesh, last));
      SurfaceTrianglesRoundTrip(mesh, last);
      ShiftConcat(SurfacesNodeTags(mesh, init), SurfaceNodeTags(mesh, last));
    }
  }

  /**
    A triangle is in a surface list's output exactly when it is a triangle
    of one of those surfaces: nothing comes from any other surface.
   */
  lemma {:induction false} SurfacesTrianglesMember<C>(mesh: Mesh<C>, surfaces: seq<int>, tri: seq<int>)
    requires AllMeshed(mesh, surfaces)
    ensures tri in SurfacesTriangles(mesh, surfaces) <==>
              exists k :: 0 <= k < |surfaces| && tri in SurfaceTriangles(mesh, surfaces[k])
    decreases |surfaces|
  {
    if surfaces != [] {
      var init, last := surfaces[..|surfaces| - 1], surfaces[|surfaces| - 1];
      assert AllMeshed(mesh, init);
      SurfacesTrianglesMember(mesh, init, tri);
      if exists k :: 0 <= k < |surfaces| && tri in SurfaceTriangles(mesh, surfaces[k]) {
        var k :| 0 <= k < |surfaces| && tri in SurfaceTriangles(mesh, surfaces[k]);
        if k < |surfaces| - 1 {
          assert surfaces[k] == init[k];
        }
      }
      if tri in SurfacesTriangles(mesh, init) {
        var k :| 0 <= k < |init| && tri in SurfaceTriangles(mesh, init[k]);
        assert init[k] == surfaces[k];
      }
    }
  }

  /**
    A volume's triangles depend only on its own adjacent surfaces and their
    node tags: two meshes that agree there give the same triangle list,
    whatever they say about every other volume and surface.
   */
  lemma {:induction false} VolumeTrianglesLocal<C>(m1: Mesh<C>, m2: Mesh<C>, vol: int)
    requires VolumeMeshed(m1, vol)
    requires m2.surfacesOfVolume(vol) == m1.surfacesOfVolume(vol)
    requires forall s :: s in m1.surfacesOfVolume(vol) ==> m2.elementNodeTags(s) == m1.elementNodeTags(s)
    ensures VolumeMeshed(m2, vol)
    ensures VolumeTriangles(m2, vol) == VolumeTriangles(m1, vol)
  {
    var ss := m1.surfacesOfVolume(vol);
    assert forall k :: 0 <= k < |ss| ==> m2.elementNodeTags(ss[k]) == m1.elementNodeTags(ss[k]);
    SurfacesTrianglesAgree(m1, m2, ss);
  }

  lemma {:induction false} SurfacesTrianglesAgree<C>(m1: Mesh<C>, m2: Mesh<C>, surfaces: seq<int>)
    requires AllMeshed(m1, surfaces)
    requires forall k :: 0 <= k < |surfaces| ==> m2.elementNodeTags(surfaces[k]) == m1.elementNodeTags(surfaces[k])
    ensures AllMeshed(m2, surfaces)
    ensures SurfacesTriangles(m2, surfaces) == SurfacesTriangles(m1, surfaces)
    decreases |surfaces|
  {
    if surfaces != [] {
      var init := surfaces[..|surfaces| - 1];
      assert forall k :: 0 <= k < |init| ==> init[k] == surfaces[k];
      SurfacesTrianglesAgree(m1, m2, init);
    }
  }

  /**
    When every node tag of a volume's surfaces lies in 1..N, with N the
    number of grouped vertices, every 0-based index in the volume's
    triangles addresses an existing vertex.
   */
  lemma VolumeIndicesInRange<C>(mesh: Mesh<C>, vol: int)
    requires VolumeMeshed(mesh, vol)
    requires forall t :: t in SurfacesNodeTags(mesh, mesh.surfacesOfVolume(vol)) ==> 1 <= t <= |Vertices(mesh)|
    ensures forall tri, x :: tri in VolumeTriangles(mesh, vol) && x in tri ==> 0 <= x < |Vertices(mesh)|
  {
    var ss := mesh.surfacesOfVolume(vol);
    var tris := VolumeTriangles(mesh, vol);
    var nodeTags := SurfacesNodeTags(mesh, ss);
    SurfacesTrianglesFromNodeTags(mesh, ss);
    forall tri, x | tri in tris && x in tri
      ensures 0 <= x < |Vertices(mesh)|
    {
      var k :| 0 <= k < |tris| && tris[k] == tri;
      FlattenMember(tris, x);
      var i :| 0 <= i < |ShiftNodeTags(nodeTags)| && ShiftNodeTags(nodeTags)[i] == x;
      assert nodeTags[i] in nodeTags;
    }
  }

  /** There are ceil(len / 3) vertices, and all are full when 3 divides the length. */
  lemma VertexCount<C>(mesh: Mesh<C>)
    ensures |mesh.nodeCoords| <= |Vertices(mesh)| * TriangleSize < |mesh.nodeCoords| + TriangleSize
    ensures |mesh.nodeCoords| % TriangleSize == 0 ==>
              forall i :: 0 <= i < |Vertices(mesh)| ==> |Vertices(mesh)[i]| == TriangleSize
  {
    ChunkCount(mesh.nodeCoords, TriangleSize);
    if |mesh.nodeCoords| % TriangleSize == 0 {
      ChunkFull(mesh.nodeCoords, TriangleSize);
    }
  }
}
