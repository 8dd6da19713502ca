/** `_load_obj_file` and the `Mesh` getters of `util_obj_loader.hpp`. The
    tinyobj parse result (`attrib_t`, `shape_t`, `material_t`) is given as
    plain values; `float` is `real`. */
module ObjLoader {
  import opened Results
  import Slices

  datatype Vec3 = Vec3(x: real, y: real, z: real)

  /** `TexCoord`. */
  datatype TexCoord = TexCoord(u: real, v: real)

  /** The defaults of `VertexCoord`, `Normal` and `TexCoord`. */
  const Unset: Vec3 := Vec3(-100.0, -100.0, -100.0)
  const UnsetTexCoord: TexCoord := TexCoord(-100.0, -100.0)

  /** `Vertex`: `material_id` is an `unsigned int`. */
  datatype Vertex = Vertex(coord: Vec3, texCoord: TexCoord, norm: Vec3, materialId: nat)

  /** `Face`: the three entries of `vertex_indices`. */
  datatype Face = Face(v0: int, v1: int, v2: int)

  /** `Material`; `Ke` and `Kr` are never set by the loader and keep their
      zero defaults. */
  datatype Material = Material(
    name: string, diffuseTexname: string, ambientTexname: string, specularTexname: string,
    bumpTexname: string, emissiveTexname: string,
    ka: Vec3, kd: Vec3, ks: Vec3, ke: Vec3, kr: Vec3,
    ns: real, ni: real, d: real, illum: int, metallic: real, roughness: real)

  datatype Mesh = Mesh(vertices: seq<Vertex>, faces: seq<Face>, materials: seq<Material>)

  /** `tinyobj::index_t`: a negative index means "absent". */
  datatype Index = Index(vertexIndex: int, normalIndex: int, texcoordIndex: int)

  /** `tinyobj::attrib_t`: flat coordinate arrays. */
  datatype Attrib = Attrib(vertices: seq<real>, normals: seq<real>, texcoords: seq<real>)

  /** `tinyobj::shape_t`'s mesh. */
  datatype Shape = Shape(numFaceVertices: seq<int>, materialIds: seq<int>, indices: seq<Index>)

  /** The fields of `tinyobj::material_t` the loader reads. */
  datatype RawMaterial = RawMaterial(
    name: string, ambient: Vec3, diffuse: Vec3, specular: Vec3,
    shininess: real, ior: real, dissolve: real, illum: int, metallic: real, roughness: real,
    diffuseTexname: string, ambientTexname: string, specularTexname: string,
    bumpTexname: string, emissiveTexname: string)

  /** `Material`'s default-constructed value. */
  const DefaultMaterial: Material := Material(
    "", "", "", "", "", "",
    Vec3(0.2, 0.2, 0.2), Vec3(0.8, 0.8, 0.8), Vec3(1.0, 1.0, 1.0), Vec3(0.0, 0.0, 0.0), Vec3(0.0, 0.0, 0.0),
    0.0, 1.0, 1.0, 2, 0.0, 0.0)

  /** A texture name is copied only when it is set; otherwise the
      material keeps its default. */
  function TexnameOr(name: string, default: string): (r: string)
    ensures name != [] ==> r == name
    ensures name == [] ==> r == default
  {
    if name != [] then name else default
  }

  /** The body of the material loop of `_load_obj_file`: the colours and
      scalars are copied, the texture names when set; `Ke` and `Kr` keep
      their defaults. */
  function ConvertMaterial(mat: RawMaterial): (m: Material)
    ensures m.name == mat.name && m.ka == mat.ambient && m.kd == mat.diffuse && m.ks == mat.specular
    ensures m.ns == mat.shininess && m.ni == mat.ior && m.d == mat.dissolve && m.illum == mat.illum
    ensures m.metallic == mat.metallic && m.roughness == mat.roughness
    ensures m.diffuseTexname == mat.diffuseTexname && m.ambientTexname == mat.ambientTexname
    ensures m.specularTexname == mat.specularTexname && m.bumpTexname == mat.bumpTexname
    ensures m.emissiveTexname == mat.emissiveTexname
    ensures m.ke == DefaultMaterial.ke && m.kr == DefaultMaterial.kr
  {
    var dflt := DefaultMaterial;
    Material(mat.name,
      TexnameOr(mat.diffuseTexname, dflt.diffuseTexname), TexnameOr(mat.ambientTexname, dflt.ambientTexname),
      TexnameOr(mat.specularTexname, dflt.specularTexname), TexnameOr(mat.bumpTexname, dflt.bumpTexname),
      TexnameOr(mat.emissiveTexname, dflt.emissiveTexname),
      mat.ambient, mat.diffuse, mat.specular, dflt.ke, dflt.kr,
      mat.shininess, mat.ior, mat.dissolve, mat.illum, mat.metallic, mat.roughness)
  }

  /** The coordinates an index refers to exist in `attrib`. */
  predicate IndexInRange(attrib: Attrib, idx: Index)
  {
    0 <= idx.vertexIndex && 3 * idx.vertexIndex + 2 < |attrib.vertices|
    && (idx.normalIndex >= 0 ==> 3 * idx.normalIndex + 2 < |attrib.normals|)
    && (idx.texcoordIndex >= 0 ==> 2 * idx.texcoordIndex + 1 < |attrib.texcoords|)
  }

  /** Every index of every shape points into `attrib`: the loader reads
      the coordinates without checking. */
  predicate IndicesInRange(attrib: Attrib, shapes: seq<Shape>)
  {
    forall k, j {:trigger IndexInRange(attrib, shapes[k].indices[j])} ::
      0 <= k < |shapes| && 0 <= j < |shapes[k].indices| ==> IndexInRange(attrib, shapes[k].indices[j])
  }

  /** What tinyobj hands over for a shape: one material id per face, and
      as many indices as the faces have corners. */
  predicate WellFormedShape(s: Shape)
  {
    |s.materialIds| == |s.numFaceVertices|
    && (forall f :: 0 <= f < |s.numFaceVertices| ==> s.numFaceVertices[f] >= 0)
    && |s.indices| == Corners(s.numFaceVertices, |s.numFaceVertices|)
  }

  /** The number of corners of the first `n` faces. */
  function Corners(fv: seq<int>, n: nat): int
    requires n <= |fv|
  {
    if n == 0 then 0 else Corners(fv, n - 1) + fv[n - 1]
  }

  /** Triangulation worked for a shape: every face has three corners. */
  predicate Triangulated(s: Shape)
  {
    forall f :: 0 <= f < |s.numFaceVertices| ==> s.numFaceVertices[f] == 3
  }

  /** The first `k` shapes are triangulated. */
  predicate TrianglesBefore(shapes: seq<Shape>, k: nat)
    requires k <= |shapes|
  {
    forall j :: 0 <= j < k ==> Triangulated(shapes[j])
  }

  lemma TrianglesExtend(shapes: seq<Shape>, n: nat, k: nat)
    requires n == k + 1 && n <= |shapes| && TrianglesBefore(shapes, k) && Triangulated(shapes[k])
    ensures TrianglesBefore(shapes, n)
  {
  }

  predicate AllTriangles(shapes: seq<Shape>)
  {
    TrianglesBefore(shapes, |shapes|)
  }

  predicate WellFormedShapes(shapes: seq<Shape>)
  {
    forall k :: 0 <= k < |shapes| ==> WellFormedShape(shapes[k])
  }

  /** `int` to `unsigned int`: tinyobj's -1 for "no material" wraps. */
  function ToUnsigned(m: int): (u: nat)
    ensures u < 0x1_0000_0000
    ensures 0 <= m < 0x1_0000_0000 ==> u == m
  {
    m % 0x1_0000_0000
  }

  /** `xs[i]`; the loader only reads indices that `IndicesInRange`
      guarantees, and the fallback is never taken there. */
  function At(xs: seq<real>, i: int): real
  {
    if 0 <= i < |xs| then xs[i] else 0.0
  }

  /** The vertex made for one corner. */
  function MakeVertex(attrib: Attrib, idx: Index, materialId: int): Vertex
  {
    var vi, ni, ti := idx.vertexIndex, idx.normalIndex, idx.texcoordIndex;
    var norm := if ni >= 0 then Vec3(At(attrib.normals, 3 * ni), At(attrib.normals, 3 * ni + 1), At(attrib.normals, 3 * ni + 2)) else Unset;
    var tex := if ti >= 0 then TexCoord(At(attrib.texcoords, 2 * ti), At(attrib.texcoords, 2 * ti + 1)) else UnsetTexCoord;
    Vertex(Vec3(At(attrib.vertices, 3 * vi), At(attrib.vertices, 3 * vi + 1), At(attrib.vertices, 3 * vi + 2)), tex, norm, ToUnsigned(materialId))
  }

  /** A corner's vertex has the coordinates its index points at, the
      normal and texture coordinate keep their defaults when their index
      is negative, and the material id is the face's, made unsigned. */
  lemma CornerVertex(attrib: Attrib, idx: Index, materialId: int)
    requires IndexInRange(attrib, idx)
    ensures var v := MakeVertex(attrib, idx, materialId);
      && v.materialId == ToUnsigned(materialId)
      && v.coord == Vec3(attrib.vertices[3 * idx.vertexIndex], attrib.vertices[3 * idx.vertexIndex + 1], attrib.vertices[3 * idx.vertexIndex + 2])
      && (idx.normalIndex < 0 ==> v.norm == Unset)
      && (idx.normalIndex >= 0 ==> v.norm == Vec3(attrib.normals[3 * idx.normalIndex], attrib.normals[3 * idx.normalIndex + 1], attrib.normals[3 * idx.normalIndex + 2]))
      && (idx.texcoordIndex < 0 ==> v.texCoord == UnsetTexCoord)
      && (idx.texcoordIndex >= 0 ==> v.texCoord == TexCoord(attrib.texcoords[2 * idx.texcoordIndex], attrib.texcoords[2 * idx.texcoordIndex + 1]))
  {
  }

  /** The three vertices of triangle `f` of a shape. */
  function TriangleVertices(attrib: Attrib, s: Shape, f: nat): (r: seq<Vertex>)
    requires f < |s.materialIds| && 3 * f + 3 <= |s.indices|
    ensures |r| == 3
  {
    var m := s.materialIds[f];
    [MakeVertex(attrib, s.indices[3 * f], m), MakeVertex(attrib, s.indices[3 * f + 1], m), MakeVertex(attrib, s.indices[3 * f + 2], m)]
  }

  /** In a shape whose faces are triangles, face `f` starts at corner `3f`. */
  lemma {:induction false} TriangleCorners(s: Shape, n: nat)
    requires n <= |s.numFaceVertices|
    requires forall f :: 0 <= f < n ==> s.numFaceVertices[f] == 3
    ensures Corners(s.numFaceVertices, n) == 3 * n
  {
    if n > 0 {
      TriangleCorners(s, n - 1);
    }
  }

  /** The corners of a prefix of the faces fit in the whole. */
  lemma {:induction false} CornersBound(fv: seq<int>, n: nat)
    requires n <= |fv| && forall f :: 0 <= f < |fv| ==> fv[f] >= 0
    ensures Corners(fv, n) <= Corners(fv, |fv|)
    decreases |fv| - n
  {
    if n < |fv| {
      CornersBound(fv, n + 1);
    }
  }

  /** The indices of the first `n` faces exist when those faces are
      triangles. */
  lemma TrianglesFit(s: Shape, n: nat)
    requires WellFormedShape(s) && n <= |s.numFaceVertices|
    requires forall f :: 0 <= f < n ==> s.numFaceVertices[f] == 3
    ensures 3 * n <= |s.indices|
  {
    TriangleCorners(s, n);
    CornersBound(s.numFaceVertices, n);
  }

  /** The vertices of the first `n` triangles of a shape. */
  function ShapeVertices(attrib: Attrib, s: Shape, n: nat): (r: seq<Vertex>)
    requires n <= |s.materialIds| && 3 * n <= |s.indices|
    ensures |r| == 3 * n
  {
    if n == 0 then [] else ShapeVertices(attrib, s, n - 1) + TriangleVertices(attrib, s, n - 1)
  }

  /** The first `n = f + 1` triangles: those before `f`, then `f`. */
  lemma ShapeVerticesLast(attrib: Attrib, s: Shape, n: nat, f: nat)
    requires n == f + 1 && n <= |s.materialIds| && 3 * n <= |s.indices|
    ensures ShapeVertices(attrib, s, n) == ShapeVertices(attrib, s, f) + TriangleVertices(attrib, s, f)
  {
    assert ShapeVertices(attrib, s, n) == ShapeVertices(attrib, s, n - 1) + TriangleVertices(attrib, s, n - 1);
  }

  /** Corner `j` of a shape gets the vertex of its own index and of the
      material of face `j / 3`. */
  lemma {:induction false} ShapeVertexAt(attrib: Attrib, s: Shape, n: nat, j: nat)
    requires n <= |s.materialIds| && 3 * n <= |s.indices| && j < 3 * n
    ensures ShapeVertices(attrib, s, n)[j] == MakeVertex(attrib, s.indices[j], s.materialIds[j / 3])
  {
    var f := n - 1;
    ShapeVerticesLast(attrib, s, n, f);
    if j < 3 * f {
      ShapeVertexAt(attrib, s, f, j);
    } else {
      assert j / 3 == f;
    }
  }

  /** The number of faces of the first `k` shapes. */
  function FacesBefore(shapes: seq<Shape>, k: nat): nat
    requires k <= |shapes|
  {
    if k == 0 then 0 else FacesBefore(shapes, k - 1) + |shapes[k - 1].numFaceVertices|
  }

  lemma FacesBeforeLast(shapes: seq<Shape>, n: nat, k: nat)
    requires n == k + 1 && n <= |shapes|
    ensures FacesBefore(shapes, n) == FacesBefore(shapes, k) + |shapes[k].numFaceVertices|
  {
    assert n - 1 == k;
  }

  /** The vertices of all triangles of the first `k` shapes, in order. */
  function AllVertices(attrib: Attrib, shapes: seq<Shape>, k: nat): seq<Vertex>
    requires k <= |shapes| && TrianglesBefore(shapes, k) && WellFormedShapes(shapes)
  {
    if k == 0 then []
    else
      var s := shapes[k - 1];
      TrianglesFit(s, |s.numFaceVertices|);
      AllVertices(attrib, shapes, k - 1) + ShapeVertices(attrib, s, |s.numFaceVertices|)
  }

  lemma AllVerticesLast(attrib: Attrib, shapes: seq<Shape>, n: nat, k: nat)
    requires n == k + 1 && n <= |shapes| && TrianglesBefore(shapes, n) && WellFormedShapes(shapes)
    requires 3 * |shapes[k].numFaceVertices| <= |shapes[k].indices|
    ensures AllVertices(attrib, shapes, n) == AllVertices(attrib, shapes, k) + ShapeVertices(attrib, shapes[k], |shapes[k].numFaceVertices|)
  {
    var s := shapes[k];
    assert shapes[n - 1] == s;
    assert AllVertices(attrib, shapes, n) == AllVertices(attrib, shapes, n - 1) + ShapeVertices(attrib, s, |s.numFaceVertices|);
  }

  /** Three vertices per face of the first `k` shapes. */
  lemma {:induction false} AllVerticesLength(attrib: Attrib, shapes: seq<Shape>, k: nat)
    requires k <= |shapes| && TrianglesBefore(shapes, k) && WellFormedShapes(shapes)
    ensures |AllVertices(attrib, shapes, k)| == 3 * FacesBefore(shapes, k)
  {
    if k > 0 {
      var h := k - 1;
      TrianglesFit(shapes[h], |shapes[h].numFaceVertices|);
      AllVerticesLast(attrib, shapes, k, h);
      FacesBeforeLast(shapes, k, h);
      AllVerticesLength(attrib, shapes, h);
    }
  }

  /** The shape loop's step: appending the vertices of shape `k`. */
  lemma ShapeLoaded(attrib: Attrib, shapes: seq<Shape>, n: nat, k: nat, before: seq<Vertex>, after: seq<Vertex>)
    requires n == k + 1 && n <= |shapes| && TrianglesBefore(shapes, n) && WellFormedShapes(shapes)
    requires 3 * |shapes[k].numFaceVertices| <= |shapes[k].indices|
    requires before == AllVertices(attrib, shapes, k)
    requires after == before + ShapeVertices(attrib, shapes[k], |shapes[k].numFaceVertices|)
    ensures after == AllVertices(attrib, shapes, n)
  {
    AllVerticesLast(attrib, shapes, n, k);
  }

  /** The vertices of shape `i` sit after those of the shapes before it. */
  lemma {:induction false} AllVertexAt(attrib: Attrib, shapes: seq<Shape>, k: nat, i: nat, j: nat)
    requires k <= |shapes| && TrianglesBefore(shapes, k) && WellFormedShapes(shapes)
    requires i < k && j < 3 * |shapes[i].numFaceVertices| && 3 * |shapes[i].numFaceVertices| <= |shapes[i].indices|
    ensures 3 * FacesBefore(shapes, i) + j < |AllVertices(attrib, shapes, k)|
    ensures AllVertices(attrib, shapes, k)[3 * FacesBefore(shapes, i) + j] == ShapeVertices(attrib, shapes[i], |shapes[i].numFaceVertices|)[j]
  {
    var h := k - 1;
    TrianglesFit(shapes[h], |shapes[h].numFaceVertices|);
    AllVerticesLast(attrib, shapes, k, h);
    AllVerticesLength(attrib, shapes, h);
    if i < h {
      AllVertexAt(attrib, shapes, h, i, j);
    }
  }

  /** Faces numbered from 0 across all shapes, face `k` naming vertices
      `3k`, `3k + 1` and `3k + 2`. */
  ghost predicate NumberedFaces(faces: seq<Face>)
  {
    forall k :: 0 <= k < |faces| ==> faces[k] == Face(3 * k, 3 * k + 1, 3 * k + 2)
  }

  /** The material loop of `_load_obj_file`: one material per input
      material, in the same order. */
  method LoadMaterials(materials: seq<RawMaterial>) returns (out: seq<Material>)
    ensures |out| == |materials|
    ensures forall i :: 0 <= i < |materials| ==> out[i] == ConvertMaterial(materials[i])
  {
    out := seq(|materials|, _ => DefaultMaterial);
    for i := 0 to |materials|
      invariant |out| == |materials|
      invariant forall j :: 0 <= j < i ==> out[j] == ConvertMaterial(materials[j])
    {
      out := out[i := ConvertMaterial(materials[i])];
    }
  }

  /** `_load_obj_file`: fails on the first face that is not a triangle;
      otherwise numbers the triangles of all shapes in order and gives each
      corner its own vertex. */
  method LoadObjFile(attrib: Attrib, shapes: seq<Shape>, materials: seq<RawMaterial>) returns (r: Result<Mesh, string>)
    requires WellFormedShapes(shapes) && IndicesInRange(attrib, shapes)
    ensures r.Err? <==> !AllTriangles(shapes)
    ensures r.Ok? ==> AllTriangles(shapes) && r.value.vertices == AllVertices(attrib, shapes, |shapes|)
    ensures r.Ok? ==> NumberedFaces(r.value.faces) && |r.value.faces| == FacesBefore(shapes, |shapes|)
    ensures r.Ok? ==> |r.value.vertices| == 3 * |r.value.faces|
    ensures r.Ok? ==> |r.value.materials| == |materials|
    ensures r.Ok? ==> forall i :: 0 <= i < |materials| ==> r.value.materials[i] == ConvertMaterial(materials[i])
  {
    var meshMaterials := LoadMaterials(materials);
    var ok, vertices, faces := LoadShapes(attrib, shapes);
    if !ok {
      return Err("number of verticies per face should always be three!");
    }
    r := Ok(Mesh(vertices, faces, meshMaterials));
  }

  /** The shape loop of `_load_obj_file`. */
  method LoadShapes(attrib: Attrib, shapes: seq<Shape>) returns (ok: bool, vertices: seq<Vertex>, faces: seq<Face>)
    requires WellFormedShapes(shapes)
    ensures ok <==> AllTriangles(shapes)
    ensures ok ==> vertices == AllVertices(attrib, shapes, |shapes|)
    ensures ok ==> NumberedFaces(faces) && |faces| == FacesBefore(shapes, |shapes|)
    ensures |vertices| == 3 * |faces|
  {
    vertices, faces := [], [];
    for k := 0 to |shapes|
      invariant TrianglesBefore(shapes, k)
      invariant NumberedFaces(faces) && |faces| == FacesBefore(shapes, k)
      invariant vertices == AllVertices(attrib, shapes, k)
      invariant |vertices| == 3 * |faces|
    {
      ghost var before := vertices;
      ok, vertices, faces := LoadShape(attrib, shapes[k], vertices, faces);
      if !ok {
        return;
      }
      TrianglesExtend(shapes, k + 1, k);
      FacesBeforeLast(shapes, k + 1, k);
      ShapeLoaded(attrib, shapes, k + 1, k, before, vertices);
    }
    ok := true;
  }

  /** The face loop of `_load_obj_file` for one shape. */
  method LoadShape(attrib: Attrib, shape: Shape, vertices0: seq<Vertex>, faces0: seq<Face>)
    returns (ok: bool, vertices: seq<Vertex>, faces: seq<Face>)
    requires WellFormedShape(shape)
    requires NumberedFaces(faces0) && |vertices0| == 3 * |faces0|
    ensures ok <==> Triangulated(shape)
    ensures ok ==> 3 * |shape.numFaceVertices| <= |shape.indices|
    ensures ok ==> vertices == vertices0 + ShapeVertices(attrib, shape, |shape.numFaceVertices|)
    ensures ok ==> NumberedFaces(faces) && |faces| == |faces0| + |shape.numFaceVertices|
    ensures |vertices| == 3 * |faces|
  {
    vertices, faces := vertices0, faces0;
    var indexOffset := 0;
    for f := 0 to |shape.numFaceVertices|
      invariant indexOffset == 3 * f && 3 * f <= |shape.indices|
      invariant forall g :: 0 <= g < f ==> shape.numFaceVertices[g] == 3
      invariant vertices == vertices0 + ShapeVertices(attrib, shape, f)
      invariant NumberedFaces(faces) && |faces| == |faces0| + f
      invariant |vertices| == 3 * |faces|
    {
      var fv := shape.numFaceVertices[f];
      if fv != 3 {
        return false, vertices, faces;
      }
      TrianglesFit(shape, f + 1);
      vertices, faces := AddTriangle(attrib, shape, f, indexOffset, vertices, faces);
      ShapeVerticesLast(attrib, shape, f + 1, f);
      Slices.AppendAssoc(vertices0, ShapeVertices(attrib, shape, f), TriangleVertices(attrib, shape, f));
      indexOffset := indexOffset + fv;
    }
    ok := true;
  }

  /** The body of the face loop of `_load_obj_file` for triangle `f`,
      whose corners start at `indexOffset`. */
  method AddTriangle(attrib: Attrib, shape: Shape, f: nat, indexOffset: nat, vertices0: seq<Vertex>, faces0: seq<Face>)
    returns (vertices: seq<Vertex>, faces: seq<Face>)
    requires WellFormedShape(shape) && f < |shape.numFaceVertices| && indexOffset == 3 * f && 3 * f + 3 <= |shape.indices|
    requires NumberedFaces(faces0) && |vertices0| == 3 * |faces0|
    ensures vertices == vertices0 + TriangleVertices(attrib, shape, f)
    ensures NumberedFaces(faces) && |faces| == |faces0| + 1
    ensures |vertices| == 3 * |faces|
  {
    var materialId := shape.materialIds[f];
    var v0 := MakeVertex(attrib, shape.indices[indexOffset], materialId);
    var v1 := MakeVertex(attrib, shape.indices[indexOffset + 1], materialId);
    var v2 := MakeVertex(attrib, shape.indices[indexOffset + 2], materialId);
    faces := AppendFace(faces0, Face(|vertices0|, |vertices0| + 1, |vertices0| + 2));
    vertices := vertices0 + [v0, v1, v2];
  }

  /** `mesh.faces.push_back(face)` for a face numbered after the others. */
  function AppendFace(faces: seq<Face>, face: Face): (r: seq<Face>)
    requires NumberedFaces(faces) && face == Face(3 * |faces|, 3 * |faces| + 1, 3 * |faces| + 2)
    ensures NumberedFaces(r) && |r| == |faces| + 1
  {
    faces + [face]
  }

  /** `get_vertex_coordinates`. */
  method GetVertexCoordinates(mesh: Mesh) returns (ret: seq<Vec3>)
    ensures |ret| == |mesh.vertices|
    ensures forall i :: 0 <= i < |ret| ==> ret[i] == mesh.vertices[i].coord
  {
    ret := [];
    for i := 0 to |mesh.vertices|
      invariant |ret| == i
      invariant forall j :: 0 <= j < i ==> ret[j] == mesh.vertices[j].coord
    {
      ret := ret + [mesh.vertices[i].coord];
    }
  }

  /** `VertexTextureCoord`. */
  datatype VertexTextureCoord = VertexTextureCoord(x: real, y: real, z: real, u: real, v: real)

  /** `get_vertex_texture_coordinates`. */
  method GetVertexTextureCoordinates(mesh: Mesh) returns (ret: seq<VertexTextureCoord>)
    ensures |ret| == |mesh.vertices|
    ensures forall i :: 0 <= i < |ret| ==>
      var v := mesh.vertices[i];
      ret[i] == VertexTextureCoord(v.coord.x, v.coord.y, v.coord.z, v.texCoord.u, v.texCoord.v)
  {
    ret := [];
    for i := 0 to |mesh.vertices|
      invariant |ret| == i
      invariant forall j :: 0 <= j < i ==>
        var v := mesh.vertices[j];
        ret[j] == VertexTextureCoord(v.coord.x, v.coord.y, v.coord.z, v.texCoord.u, v.texCoord.v)
    {
      var v := mesh.vertices[i];
      ret := ret + [VertexTextureCoord(v.coord.x, v.coord.y, v.coord.z, v.texCoord.u, v.texCoord.v)];
    }
  }

  /** `VertexCoordColor`; `a` defaults to 1. */
  datatype VertexCoordColor = VertexCoordColor(x: real, y: real, z: real, r: real, g: real, b: real, a: real)

  /** `get_vertex_coordinates_colors`: an error if a vertex names a
      material that does not exist, otherwise each vertex coloured by its
      material's diffuse colour. */
  method GetVertexCoordinatesColors(mesh: Mesh) returns (r: Result<seq<VertexCoordColor>, string>)
    ensures r.Err? <==> exists i :: 0 <= i < |mesh.vertices| && mesh.vertices[i].materialId >= |mesh.materials|
    ensures r.Ok? ==> |r.value| == |mesh.vertices|
    ensures r.Ok? ==> forall i :: 0 <= i < |mesh.vertices| ==>
      var v := mesh.vertices[i];
      var kd := mesh.materials[v.materialId].kd;
      r.value[i] == VertexCoordColor(v.coord.x, v.coord.y, v.coord.z, kd.x, kd.y, kd.z, 1.0)
  {
    var ret := [];
    for i := 0 to |mesh.vertices|
      invariant |ret| == i
      invariant forall j :: 0 <= j < i ==> mesh.vertices[j].materialId < |mesh.materials|
      invariant forall j :: 0 <= j < i ==>
        var v := mesh.vertices[j];
        var kd := mesh.materials[v.materialId].kd;
        ret[j] == VertexCoordColor(v.coord.x, v.coord.y, v.coord.z, kd.x, kd.y, kd.z, 1.0)
    {
      var v := mesh.vertices[i];
      if v.materialId >= |mesh.materials| {
        return Err("Invalid material id!");
      }
      var kd := mesh.materials[v.materialId].kd;
      ret := ret + [VertexCoordColor(v.coord.x, v.coord.y, v.coord.z, kd.x, kd.y, kd.z, 1.0)];
    }
    r := Ok(ret);
  }

  /** `get_triangle_count`. */
  function GetTriangleCount(mesh: Mesh): (n: nat)
    ensures n == |mesh.faces|
  {
    |mesh.faces|
  }

  /** A loaded mesh has one triangle per input face and three vertices per
      triangle. */
  lemma LoadedTriangleCount(mesh: Mesh, attrib: Attrib, shapes: seq<Shape>)
    requires AllTriangles(shapes) && WellFormedShapes(shapes)
    requires mesh.vertices == AllVertices(attrib, shapes, |shapes|) && |mesh.faces| == FacesBefore(shapes, |shapes|)
    ensures GetTriangleCount(mesh) == FacesBefore(shapes, |shapes|)
    ensures |mesh.vertices| == 3 * GetTriangleCount(mesh)
  {
    AllVerticesLength(attrib, shapes, |shapes|);
  }
}
