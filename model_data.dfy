/**
 * The entities a model element is made of.  Floating-point attributes
 * (opacity, colour, blend radius) are carried as `real` values that are
 * only copied and overwritten, never computed with.
 */
module ModelData {
  import opened Wrappers

  /** An RGB colour, three opaque floating-point components. */
  datatype Color = Color(r: real, g: real, b: real)

  /**
   * A polygonal mesh, reduced to what the face bookkeeping observes:
   * whether it carries the per-cell "ModelFaceID" tag array, and that
   * array itself (one tag per cell, in cell order).
   */
  datatype Mesh = Mesh(hasFaceIdArray: bool, cellTags: seq<int>)

  /** One face of the model; `vpd` is its optional mesh fragment. */
  datatype Face = Face(
    id: int,
    name: string,
    faceType: string,
    selected: bool,
    visible: bool,
    opacity: real,
    color: Color,
    vpd: Option<Mesh>)

  /** A blend (fillet) radius between the ordered pair of faces (faceID1, faceID2). */
  datatype BlendParamRadius = BlendParamRadius(faceID1: int, faceID2: int, radius: real)
}
