/**
 * Material post-processing of a loaded robot (RobotModel.jsx, the
 * `traverse` inside `manager.onLoad`): every node casts and receives
 * shadows; a mesh with no material or a plain white one gets the shared
 * platinum fallback; a Standard or Phong material is rebuilt as a physical
 * material keeping its colour and texture; anything else is kept.
 */
module SceneGraph {
  import opened Optional

  /** A 24-bit colour as `Color.getHex()` reports it. */
  type Hex = n: int | 0 <= n < 0x100_0000

  const White: Hex := 0xff_ffff
  /** `new Color("#f3f4f6")`. */
  const Platinum: Hex := 0xf3_f4f6

  /** The three.js material class; Physical extends Standard. */
  datatype Kind = Basic | Lambert | Phong | Standard | Physical | Toon | OtherKind

  /** `isMeshStandardMaterial || isMeshPhongMaterial`. */
  predicate Upgradable(k: Kind)
  {
    k == Standard || k == Physical || k == Phong
  }

  /**
   * The physical surface parameters, in thousandths: roughness,
   * metalness, clearcoat, clearcoat roughness, environment-map intensity,
   * and whether both faces are drawn.
   */
  datatype Finish = Finish(roughness: int, metalness: int, clearcoat: int,
                           clearcoatRoughness: int, envMapIntensity: int, doubleSided: bool)

  /** An identifier for a texture image (`material.map`). */
  type TextureId = nat

  datatype Material = Material(kind: Kind, color: Option<Hex>, texture: Option<TextureId>, finish: Finish)

  const FallbackFinish := Finish(250, 700, 500, 100, 1500, true)

  /** The shared fallback: platinum white, polished, metallic, clear-coated. */
  const Fallback := Material(Physical, Some(Platinum), None, FallbackFinish)

  /** The parameters of a rebuilt Standard/Phong material; clearcoat keeps three.js' default of 0. */
  const UpgradeFinish := Finish(300, 500, 0, 0, 1200, true)

  /** No material, or a colour reading exactly `0xffffff`. */
  predicate NeedsFallback(m: Option<Material>)
  {
    m.None? || m.value.color == Some(White)
  }

  /** The material a mesh carries after post-processing. */
  function ChooseMaterial(m: Option<Material>): (r: Material)
    ensures r == Fallback <==> NeedsFallback(m)
    ensures !NeedsFallback(m) ==> r.color == m.value.color && r.texture == m.value.texture
    ensures !NeedsFallback(m) && Upgradable(m.value.kind) ==> r.kind == Physical && r.finish == UpgradeFinish
    ensures !NeedsFallback(m) && !Upgradable(m.value.kind) ==> r == m.value
  {
    match m
    case None => Fallback
    case Some(mat) =>
      if mat.color == Some(White) then Fallback
      else if Upgradable(mat.kind) then Material(Physical, mat.color, mat.texture, UpgradeFinish)
      else mat
  }

  /** A node of the robot's scene graph. */
  datatype Object3D = Object3D(isMesh: bool, material: Option<Material>,
                               castShadow: bool, receiveShadow: bool, children: seq<Object3D>)

  /** Every node of the tree casts and receives shadows. */
  predicate Shadowed(o: Object3D)
    decreases o
  {
    o.castShadow && o.receiveShadow && forall i :: 0 <= i < |o.children| ==> Shadowed(o.children[i])
  }

  /** `after` is `before` with one node's post-processing applied at its root. */
  predicate NodeRefitted(before: Object3D, after: Object3D)
  {
    && after.isMesh == before.isMesh
    && after.castShadow && after.receiveShadow
    && after.material == (if before.isMesh then Some(ChooseMaterial(before.material)) else before.material)
    && |after.children| == |before.children|
  }

  /** `after` is `before` with post-processing applied at every node, shape unchanged. */
  predicate Refitted(before: Object3D, after: Object3D)
    decreases before
  {
    NodeRefitted(before, after)
    && forall i :: 0 <= i < |before.children| ==> Refitted(before.children[i], after.children[i])
  }

  /** `robot.traverse(child => ...)`: visits the node and all its descendants. */
  function Traverse(o: Object3D): (r: Object3D)
    ensures Shadowed(r)
    ensures Refitted(o, r)
    decreases o
  {
    var kids := seq(|o.children|, i requires 0 <= i < |o.children| => Traverse(o.children[i]));
    Object3D(o.isMesh,
             if o.isMesh then Some(ChooseMaterial(o.material)) else o.material,
             true, true, kids)
  }

  /** Every mesh of the tree has a material, and none is plain white. */
  predicate Dressed(o: Object3D)
    decreases o
  {
    (o.isMesh ==> o.material.Some? && o.material.value.color != Some(White))
    && forall i :: 0 <= i < |o.children| ==> Dressed(o.children[i])
  }

  /** After post-processing no mesh is bare or plain white. */
  lemma {:induction false} RefittedIsDressed(before: Object3D, after: Object3D)
    requires Refitted(before, after)
    ensures Dressed(after)
    decreases before
  {
    forall i | 0 <= i < |after.children|
      ensures Dressed(after.children[i])
    {
      RefittedIsDressed(before.children[i], after.children[i]);
    }
  }
}
