/**
 * The joint model derived from a parsed robot (RobotModel.jsx, end of
 * `manager.onLoad`) and the per-frame pose update (`useFrame`).
 */
module Joints {
  import opened Optional

  /** A joint as the robot description parser reports it: `_jointType` and `limit`. */
  datatype UrdfJoint = UrdfJoint(jointType: string, lower: real, upper: real)

  /** One slider's configuration: `{min, max, value}`. */
  datatype JointConfig = JointConfig(min: real, max: real, value: real)

  const FixedType := "fixed"

  /** A joint the user can move. */
  predicate Movable(j: UrdfJoint)
  {
    j.jointType != FixedType
  }

  /** The slider configuration of a movable joint: its limits, starting at zero. */
  function ConfigOf(j: UrdfJoint): JointConfig
  {
    JointConfig(j.lower, j.upper, 0.0)
  }

  /**
   * `Object.keys(robot.joints).forEach(...)`: collects the movable joints
   * and counts them. The limits are copied as they are; `min <= max` is
   * not checked.
   */
  method ExtractJoints(joints: map<string, UrdfJoint>) returns (config: map<string, JointConfig>, count: nat)
    ensures forall k :: k in config <==> k in joints && Movable(joints[k])
    ensures forall k :: k in config ==> config[k] == ConfigOf(joints[k])
    ensures count == |config|
  {
    config := map[];
    count := 0;
    var todo := joints.Keys;
    while todo != {}
      invariant todo <= joints.Keys
      invariant forall k :: k in config <==> k in joints && k !in todo && Movable(joints[k])
      invariant forall k :: k in config ==> config[k] == ConfigOf(joints[k])
      invariant count == |config|
      decreases todo
    {
      var k :| k in todo;
      var joint := joints[k];
      if joint.jointType != FixedType {
        config := config[k := ConfigOf(joint)];
        count := count + 1;
      }
      todo := todo - {k};
    }
  }

  /** A JavaScript value held in the joint-value map; only numbers are applied. */
  datatype JsValue = Number(x: real) | NonNumber

  /**
   * One frame of `useFrame`: the `setJointValue(name, value)` calls issued,
   * as a map from joint name to value. Without a loaded robot nothing is
   * applied.
   */
  function FrameCommands(robot: Option<map<string, UrdfJoint>>, values: map<string, JsValue>): (cmds: map<string, real>)
    ensures robot.None? ==> cmds == map[]
    ensures robot.Some? ==> forall k :: k in cmds <==> k in values && k in robot.value && values[k].Number?
    ensures forall k :: k in cmds ==> values[k] == Number(cmds[k])
  {
    match robot
    case None => map[]
    case Some(joints) => map k | k in values && k in joints && values[k].Number? :: values[k].x
  }

  /** Entries for names the robot does not have never reach it. */
  lemma FrameIgnoresUnknownNames(joints: map<string, UrdfJoint>, values: map<string, JsValue>, name: string, v: JsValue)
    requires name !in joints
    ensures FrameCommands(Some(joints), values[name := v]) == FrameCommands(Some(joints), values)
  {
    var a := FrameCommands(Some(joints), values[name := v]);
    var b := FrameCommands(Some(joints), values);
    assert a.Keys == b.Keys;
  }
}
