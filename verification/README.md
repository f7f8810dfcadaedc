# cad_to_dagmc: the in-memory mesh to h5m conversion, in Dafny

This project models the bookkeeping inside `mesh_to_h5m_in_memory_method`
(and the `brep_to_h5m` wrapper around it) from `cad_to_dagmc`. The tool turns
a Brep CAD model, surface-meshed by Gmsh, into the arrays that a DAGMC h5m
writer receives:

- one triangle list per volume, in the order of `volumes`;
- the grouped vertex coordinates;
- the material tags;
- the output filename.

The conversion has three parts:

1. **Argument validation.** A single string given as `material_tags` is
   rejected. The number of volumes must equal the number of material tags.
2. **Triangles.** The model walks the volumes in order, and for each volume
   its adjacent surfaces in order. For each surface it takes the node tags of
   the first element type and shifts every 1-based Gmsh node tag down by one.
   It then chunks the shifted list into triples. Each volume's triples are
   concatenated over its surfaces.
3. **Vertices.** The flat coordinate array is chunked into triples.

Gmsh is a foreign library with hidden state. It is replaced by the values its
queries return, gathered in `MeshToH5m.Mesh`:

- the surfaces read back from each volume's physical group;
- the per-element-type node-tag lists of each surface;
- the flat coordinate array.

Coordinates have an opaque type parameter `C`, so no floating-point
reasoning is involved.

Files:

- `chunking.dfy` (module `Chunking`): the Python chunking comprehension
  `[s[i : i + n] for i in range(0, len(s), n)]`. `Chunk` is written
  literally, with Python's clamping slices. `Groups` is an independent
  recursive definition that takes `n` elements and recurses on the rest. The
  module proves that the two agree, that chunking round-trips through
  concatenation, and the chunk sizes and count.
- `mesh_to_h5m.dfy` (module `MeshToH5m`): the data model and a declarative
  description of the output. It also has the conversion written loop for loop
  as in `brep_to_h5m.py` (the surface and node-tag loops in `CollectVolumeTriangles`), proved to produce that description,
  and lemmas about the output.

The three errors the model represents are values of `ConversionError` in a
`Result`:

- the two `ValueError`s: a material-tag string, and a count mismatch;
- the `IndexError` from `nodeTags[0]` on a surface that has no elements.

## Model

| member | source | states |
|---|---|---|
| `MeshToH5m.MeshToH5mInMemory` | src/cad_to_dagmc/brep_to_h5m.py:107-166 | A single material-tag string fails with `MaterialTagsIsString`. A count mismatch fails with `VolumeCountMismatch` carrying both counts. The call succeeds exactly when the tags are a list, the counts are equal and every surface adjacent to a volume has elements. Otherwise the error names the first surface without elements, in volume order and then surface order. On success, the writer gets one triangle list per volume, in input order, and list `v` depends only on volume `v`, because the groups are reset per volume. The writer also gets the coordinates grouped in threes, the material tags unchanged and the filename. The same filename is returned. |
| `MeshToH5m.CollectVolumeTriangles` | src/cad_to_dagmc/brep_to_h5m.py:136-147 | The loop over one volume's surfaces. It succeeds exactly when every surface has elements, and then returns the triangles of the surfaces in order. Otherwise it fails at the first surface without elements. |
| `MeshToH5m.BrepToH5m` | src/cad_to_dagmc/brep_to_h5m.py:40-46 | Succeeds exactly on the inputs the conversion accepts, and then returns the given h5m filename unchanged. On failure it passes the conversion's error through: a tag string gives `MaterialTagsIsString`, a count mismatch gives `VolumeCountMismatch`, and a surface without elements gives `SurfaceWithoutElements` naming the first such surface. |
| `MeshToH5m.ShiftNodeTags` | src/cad_to_dagmc/brep_to_h5m.py:140-142 | The renumbered list has the same length as the node tags. Entry `i` is node tag `i` minus exactly one, so order is preserved. |
| `MeshToH5m.SurfaceTrianglesRoundTrip` | src/cad_to_dagmc/brep_to_h5m.py:137-146 | Concatenating a surface's triangles gives back its node tags, each minus one, in order. |
| `MeshToH5m.SurfaceTrianglePositions` | src/cad_to_dagmc/brep_to_h5m.py:140-146 | Entry `j` of triangle `i` of a surface is that surface's node tag `3i + j` minus one. |
| `MeshToH5m.SurfaceTrianglesFull` | src/cad_to_dagmc/brep_to_h5m.py:115-146 | When a surface's node-tag count is a multiple of three, every triangle has exactly three vertices. |
| `MeshToH5m.SurfacesTrianglesFromNodeTags` | src/cad_to_dagmc/brep_to_h5m.py:136-147 | Concatenating a volume's triangles gives the node tags of its surfaces, each minus one, in surface order. |
| `MeshToH5m.SurfacesTrianglesConcat` | src/cad_to_dagmc/brep_to_h5m.py:136-147 | The triangle list of a surface sequence `a + b` is the list for `a` followed by the list for `b`. Surface order is preserved. |
| `MeshToH5m.SurfacesTrianglesMember` | src/cad_to_dagmc/brep_to_h5m.py:118-147 | A triangle is in a volume's list exactly when it is a triangle of one of that volume's adjacent surfaces. |
| `MeshToH5m.VolumeTrianglesLocal` | src/cad_to_dagmc/brep_to_h5m.py:117-148 | A volume's triangle list depends only on its own adjacent surfaces and their node tags. Two meshes that agree there produce the same list. |
| `MeshToH5m.VolumeIndicesInRange` | src/cad_to_dagmc/brep_to_h5m.py:140-154 | If every node tag of a volume's surfaces lies in 1..N, where N is the number of grouped vertices, then every 0-based index in its triangles addresses an existing vertex. |
| `MeshToH5m.VolumeTriangles` | src/cad_to_dagmc/brep_to_h5m.py:117-148 | A volume's triangle list, concatenated, is the node tags of the surfaces read back for that volume, in surface order, each minus one. |
| `MeshToH5m.Vertices` | src/cad_to_dagmc/brep_to_h5m.py:150-154 | Concatenating the grouped vertices gives back the flat coordinate array. Every vertex holds one to three coordinates, and every vertex but the last holds exactly three. |
| `MeshToH5m.VertexCount` | src/cad_to_dagmc/brep_to_h5m.py:150-154 | The vertex count `c` satisfies `len <= 3c < len + 3`, which makes it ceil(len / 3). When three divides the length, every vertex is full. |
| `Chunking.ChunkIsGroups` | src/cad_to_dagmc/brep_to_h5m.py:143-146 | The range-and-slice comprehension equals the recursive definition: take the first `n` elements, then chunk the rest. |
| `Chunking.ChunkRoundTrip` | src/cad_to_dagmc/brep_to_h5m.py:143-146 | Concatenating the chunks gives back the input exactly. |
| `Chunking.ChunkSizes` | src/cad_to_dagmc/brep_to_h5m.py:143-146 | Every chunk is non-empty and at most `n` long, and every chunk except the last is exactly `n` long. |
| `Chunking.ChunkCount` | src/cad_to_dagmc/brep_to_h5m.py:143-146 | The chunk count `c` satisfies `len <= c * n < len + n`, which makes it ceil(len / n). |
| `Chunking.ChunkFull` | src/cad_to_dagmc/brep_to_h5m.py:143-146 | When `n` divides the length, every chunk holds exactly `n` elements. |
| `Chunking.Slice` | src/cad_to_dagmc/brep_to_h5m.py:143-146 | Python's `s[lo:hi]` with both bounds clamped to the length: its length is `min(hi, len) - min(lo, len)`, and element `j` is input element `lo + j`. |
| `Chunking.Chunk` | src/cad_to_dagmc/brep_to_h5m.py:152-154 | The comprehension over `range(0, len(s), n)`: element `j` of chunk `i` is input element `i * n + j`, which lies inside the input. |
| `Chunking.ChunkFlattenFull` | src/cad_to_dagmc/brep_to_h5m.py:143-146 | The other direction of the round trip: chunking a concatenation of full `n`-element groups gives back those groups. |

## Left out

- Gmsh calls are not modelled: `initialize`/`finalize`, `importShapes`, the
  mesh options and `mesh.generate`, and physical-group add/remove/naming. Only
  their results enter, as fields of `Mesh`.
- The physical-group round trip (lines 120-134) is not modelled as a
  computation. `Mesh.surfacesOfVolume` is the surface list read back from the
  volume's physical group at line 134, in the order Gmsh returns it.
- Line 129 indexes `groups[0]` without a guard. If `getPhysicalGroups()`
  came back empty, for example after `addPhysicalGroup(2, [])` for a volume
  with no adjacent surfaces, the Python code would raise `IndexError` there.
  Whether Gmsh keeps an empty physical group is engine behaviour that the model
  cannot see, so this error is not modelled: an empty read-back list in
  `surfacesOfVolume` is a volume with no triangles, and the conversion accepts
  it with an empty triangle list for that volume.
- `getElements` also returns element types and element tags, which the code
  discards. Only the per-type node-tag lists are modelled. Only the first
  type is used, as in `nodeTags[0]`.
- Node tags arrive as unsigned 64-bit values. Python's `.tolist()` turns
  them into unbounded integers before the `- 1`, so no wrap-around occurs.
  The model uses `int`.
- `mesh_brep` is not modelled. It is a file-existence check (filesystem I/O)
  plus configuration of the foreign mesher. The same goes for the mesh-size
  and algorithm parameters of `brep_to_h5m`. `BrepToH5m` takes the meshed
  model as a parameter instead.
- The default argument `h5m_filename = "dagmc.h5m"` is not modelled. In the
  model the filename is always an explicit parameter.
- `vertices_to_h5m` is not modelled: it is the binary h5m/MOAB writer and its
  normal fixing, and it is not part of this model. The conversion stops at the
  arguments it would receive (`WriterInput`).
- Coordinate values are floats and are treated as an opaque type.
- `material_tags` is modelled as either a list or a single string. A general
  iterable without `len` would raise `TypeError` at line 111, and that case
  is not modelled.
- Node numbering: the range lemma takes as a hypothesis that node tags lie
  in 1..N. The Python code assumes without checking that Gmsh numbers the nodes
  contiguously in the order `getNodes` returns their coordinates.
- `tests/test_brep_to_h5m/test_h5m_in_transport.py` is not modelled. It is
  CadQuery geometry construction, OpenMC Monte Carlo transport and XML file
  writing.
