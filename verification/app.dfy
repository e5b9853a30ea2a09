/**
 * The page-level state (App.jsx) together with the robot viewer's own
 * state (RobotModel.jsx): the uploaded file map, the joint sliders'
 * configuration and values, the load status, and the loaded robot.
 * Upload and panel effects are dispatched into this state here.
 */
module App {
  import opened Optional
  import opened Strings
  import opened FileMaps
  import opened Joints
  import opened SceneGraph
  import Upload
  import Console
  import WireFormat

  /** The status overlay's state; the overlay text is `message`. */
  datatype Phase = Idle | Loading | Success
  datatype LoadStatus = LoadStatus(phase: Phase, message: string)

  /** A parsed robot: its scene tree and its joints by name. */
  datatype Robot = Robot(root: Object3D, joints: map<string, UrdfJoint>)

  datatype AppState = AppState(
    fileMap: Option<FileMap>,
    jointConfig: map<string, JointConfig>,
    jointValues: map<string, JsValue>,
    loadStatus: LoadStatus,
    uploadOpen: bool,
    robot: Option<Robot>)

  const ProcessingMsg := "Processing..."
  const BuildingMsg := "Building Robot..."

  /** Nothing uploaded, no joints, an idle overlay, the dialog closed, no robot. */
  function Init(): (s: AppState)
    ensures s.fileMap.None? && s.robot.None? && !s.uploadOpen
    ensures s.jointConfig == map[] && s.jointValues == map[]
    ensures s.loadStatus.phase == Idle && s.loadStatus.message == ""
  {
    AppState(None, map[], map[], LoadStatus(Idle, ""), false, None)
  }

  /**
   * `handleJointChange`: records the value under the joint's name without
   * clamping it to the joint's limits and without checking the name.
   */
  function HandleJointChange(s: AppState, name: string, value: real): (r: AppState)
    ensures r.jointValues.Keys == s.jointValues.Keys + {name}
    ensures r.jointValues[name] == Number(value)
    ensures forall k :: k in s.jointValues && k != name ==> r.jointValues[k] == s.jointValues[k]
    ensures r.(jointValues := s.jointValues) == s
  {
    s.(jointValues := s.jointValues[name := Number(value)])
  }

  /** `handleFilesLoaded`: stores the new map and shows the processing status. */
  function HandleFilesLoaded(s: AppState, m: FileMap): (r: AppState)
    ensures r.fileMap == Some(m)
    ensures r.loadStatus == LoadStatus(Loading, ProcessingMsg)
    ensures r.jointConfig == s.jointConfig && r.jointValues == s.jointValues
    ensures r.robot == s.robot && r.uploadOpen == s.uploadOpen
  {
    s.(fileMap := Some(m), loadStatus := LoadStatus(Loading, ProcessingMsg))
  }

  /** The `urdf` entry of a map, when it is present and not empty (a truthy string). */
  function EntryPoint(fileMap: Option<FileMap>): (r: Option<string>)
    ensures r.Some? <==> fileMap.Some? && Upload.UrdfKey in Keys(fileMap.value) && Get(fileMap.value, Upload.UrdfKey).value != ""
    ensures r.Some? ==> Entry(Upload.UrdfKey, r.value) in fileMap.value
  {
    if fileMap.None? then None
    else
      match Get(fileMap.value, Upload.UrdfKey)
      case None => None
      case Some(url) => if url == "" then None else Some(url)
  }

  /**
   * The load effect's guard: without a map or without a `urdf` entry
   * nothing happens; otherwise the overlay shows the building status and
   * the description is requested from the entry's URL.
   */
  function StartLoad(s: AppState): (r: (AppState, Option<string>))
    ensures r.1 == EntryPoint(s.fileMap)
    ensures r.1.None? ==> r.0 == s
    ensures r.1.Some? ==> r.0 == s.(loadStatus := LoadStatus(Loading, BuildingMsg))
  {
    var request := EntryPoint(s.fileMap);
    if request.None? then (s, None)
    else (s.(loadStatus := LoadStatus(Loading, BuildingMsg)), request)
  }

  /** "Loaded N joints". */
  function LoadedMessage(count: nat): string
  {
    "Loaded " + NatToDecimal(count) + " joints"
  }

  /** The count a loaded-message reports reads back as the count. */
  lemma LoadedMessageReports(count: nat)
    ensures var m := LoadedMessage(count);
            var digits := m[|"Loaded "|..|m| - |" joints"|];
            AllDigits(digits) && DecimalValue(digits) == count
  {
    var m := LoadedMessage(count);
    assert m[|"Loaded "|..|m| - |" joints"|] == NatToDecimal(count);
    DecimalRoundTrip(count);
  }

  /**
   * `manager.onLoad`: when the loader produced no robot nothing changes;
   * otherwise the tree is shadowed and given its materials, the movable
   * joints become the slider configuration, and the overlay reports how
   * many there are. Slider values from an earlier robot are kept.
   */
  method CompleteLoad(s: AppState, pending: Option<Robot>) returns (r: AppState)
    ensures pending.None? ==> r == s
    ensures pending.Some? ==>
              && r.robot.Some? && r.robot.value.joints == pending.value.joints
              && Refitted(pending.value.root, r.robot.value.root) && Shadowed(r.robot.value.root)
              && (forall k :: k in r.jointConfig <==> k in pending.value.joints && Movable(pending.value.joints[k]))
              && (forall k :: k in r.jointConfig ==> r.jointConfig[k] == ConfigOf(pending.value.joints[k]))
              && r.loadStatus == LoadStatus(Success, LoadedMessage(|r.jointConfig|))
              && r.fileMap == s.fileMap && r.jointValues == s.jointValues && r.uploadOpen == s.uploadOpen
  {
    if pending.None? {
      return s;
    }
    var robot := pending.value;
    var config, count := ExtractJoints(robot.joints);
    var root := Traverse(robot.root);
    r := s.(robot := Some(Robot(root, robot.joints)),
            jointConfig := config,
            loadStatus := LoadStatus(Success, LoadedMessage(count)));
  }

  /** The joint updates one animation frame applies to the loaded robot. */
  function Frame(s: AppState): (cmds: map<string, real>)
    ensures s.robot.None? ==> cmds == map[]
    ensures forall k :: k in cmds <==> s.robot.Some? && k in s.robot.value.joints && k in s.jointValues && s.jointValues[k].Number?
    ensures forall k :: k in cmds ==> s.jointValues[k] == Number(cmds[k])
  {
    FrameCommands(if s.robot.None? then None else Some(s.robot.value.joints), s.jointValues)
  }

  /** How the page reacts to what the upload dialog does. */
  function ApplyUploadEffect(s: AppState, e: Upload.Effect): (r: AppState)
    ensures r.jointConfig == s.jointConfig && r.jointValues == s.jointValues && r.robot == s.robot
    ensures e.LoadFiles? ==> r.fileMap == Some(e.files) && r.loadStatus == LoadStatus(Loading, ProcessingMsg)
                             && r.uploadOpen == s.uploadOpen
    ensures e.CloseDialog? ==> !r.uploadOpen && r.fileMap == s.fileMap && r.loadStatus == s.loadStatus
    ensures e.SetProcessing? || e.Alert? ==> r == s
  {
    match e
    case SetProcessing(_) => s
    case LoadFiles(m) => HandleFilesLoaded(s, m)
    case CloseDialog => s.(uploadOpen := false)
    case Alert(_) => s
  }

  function ApplyUploadEffects(s: AppState, effects: seq<Upload.Effect>): AppState
    decreases |effects|
  {
    if |effects| == 0 then s
    else ApplyUploadEffect(ApplyUploadEffects(s, effects[..|effects| - 1]), effects[|effects| - 1])
  }

  /** An effect run without a load changes nothing on the page. */
  lemma {:induction false} ApplyWithoutLoad(s: AppState, effects: seq<Upload.Effect>)
    requires forall i :: 0 <= i < |effects| ==> !effects[i].LoadFiles? && !effects[i].CloseDialog?
    ensures ApplyUploadEffects(s, effects) == s
    decreases |effects|
  {
    if |effects| > 0 {
      ApplyWithoutLoad(s, effects[..|effects| - 1]);
    }
  }

  /** A cancelled, unreadable or description-less archive leaves the page as it was. */
  lemma FailedZipUploadChangesNothing(s: AppState, selected: Option<Upload.Archive>)
    requires !Upload.Imports(selected)
    ensures ApplyUploadEffects(s, Upload.ZipUpload(selected)) == s
  {
    match selected
    case None =>
    case Some(Corrupt) =>
      ApplyWithoutLoad(s, Upload.ZipUpload(selected));
    case Some(Archive(entries)) =>
      Upload.FoldEntryPoint(entries);
      ApplyWithoutLoad(s, Upload.ZipUpload(selected));
  }

  /**
   * A zip archive that holds a description closes the dialog, and the
   * load effect then requests the `urdf` key's URL: that of the last entry
   * that is a description or a file named plain `urdf`. Without such a
   * plain `urdf` file, this is the archive's last description.
   */
  lemma ZipUploadStartsLoad(s: AppState, entries: seq<Upload.ZipEntry>)
    requires Upload.Imports(Some(Upload.Archive(entries)))
    ensures var r := ApplyUploadEffects(s, Upload.ZipUpload(Some(Upload.Archive(entries))));
            && r.fileMap == Some(Upload.Fold(entries).files)
            && !r.uploadOpen
            && r.loadStatus == LoadStatus(Loading, ProcessingMsg)
            && StartLoad(r).1 == Upload.LastAlias(entries)
            && StartLoad(r).1.Some?
            && ((forall i :: !Upload.FileNamedAt(entries, i, Upload.UrdfKey)) ==> StartLoad(r).1 == Upload.LastDescription(entries))
  {
    ZipUploadDispatch(s, entries);
    EntryPointOfArchive(entries);
    Upload.DescriptionGivesAlias(entries);
    if forall i :: !Upload.FileNamedAt(entries, i, Upload.UrdfKey) {
      Upload.FoldAlias(entries);
    }
  }

  /** The page state after a zip upload that found a description. */
  lemma ZipUploadDispatch(s: AppState, entries: seq<Upload.ZipEntry>)
    requires Upload.Imports(Some(Upload.Archive(entries)))
    ensures ApplyUploadEffects(s, Upload.ZipUpload(Some(Upload.Archive(entries))))
            == HandleFilesLoaded(s, Upload.Fold(entries).files).(uploadOpen := false)
  {
    var files := Upload.Fold(entries).files;
    ZipUploadTrace(entries);
    ApplyImportTrace(s, files);
  }

  lemma ZipUploadTrace(entries: seq<Upload.ZipEntry>)
    requires Upload.Imports(Some(Upload.Archive(entries)))
    ensures Upload.ZipUpload(Some(Upload.Archive(entries)))
            == [Upload.SetProcessing(true), Upload.LoadFiles(Upload.Fold(entries).files), Upload.CloseDialog, Upload.SetProcessing(false)]
  {
    Upload.FoldEntryPoint(entries);
  }

  lemma ApplyImportTrace(s: AppState, files: FileMap)
    ensures ApplyUploadEffects(s, [Upload.SetProcessing(true), Upload.LoadFiles(files), Upload.CloseDialog, Upload.SetProcessing(false)])
            == HandleFilesLoaded(s, files).(uploadOpen := false)
  {
    var effects := [Upload.SetProcessing(true), Upload.LoadFiles(files), Upload.CloseDialog, Upload.SetProcessing(false)];
    assert effects[..3] == [Upload.SetProcessing(true), Upload.LoadFiles(files), Upload.CloseDialog];
    assert effects[..3][..2] == [Upload.SetProcessing(true), Upload.LoadFiles(files)];
    assert effects[..3][..2][..1] == [Upload.SetProcessing(true)];
    assert effects[..3][..2][..1][..0] == [];
    var loaded := HandleFilesLoaded(s, files);
    assert ApplyUploadEffects(s, effects[..3][..2][..1]) == s;
    assert ApplyUploadEffects(s, effects[..3][..2]) == loaded;
    assert ApplyUploadEffects(s, effects[..3]) == loaded.(uploadOpen := false);
  }

  /** The entry point of an uploaded archive is the last entry that writes the `urdf` key. */
  lemma EntryPointOfArchive(entries: seq<Upload.ZipEntry>)
    ensures EntryPoint(Some(Upload.Fold(entries).files)) == Upload.LastAlias(entries)
  {
    Upload.FoldUrdfKey(entries);
    if Upload.LastAlias(entries).Some? {
      var url := Upload.LastAlias(entries).value;
      assert url != "" by {
        assert IsBlobUrl(url);
      }
    }
  }

  /** A single description file is requested from its own URL. */
  lemma SimpleUploadStartsLoad(s: AppState, url: BlobUrl)
    ensures var r := ApplyUploadEffects(s, Upload.SimpleUpload(Some(url)));
            && !r.uploadOpen
            && StartLoad(r).1 == Some(url)
  {
    var effects := Upload.SimpleUpload(Some(url));
    assert effects[..1][..0] == [];
    assert url != "" by {
      assert IsBlobUrl(url);
    }
  }

  /** How the page reacts to what the control panel does. */
  function ApplyPanelEffect(s: AppState, e: Console.Effect): (r: AppState)
    ensures e.Alert? ==> r == s
    ensures e.JointChange? ==> && r.jointValues.Keys == s.jointValues.Keys + {e.name}
                               && r.jointValues[e.name] == Number(e.value)
                               && r.(jointValues := s.jointValues) == s
  {
    match e
    case Alert(_) => s
    case JointChange(name, value) => HandleJointChange(s, name, value)
  }

  /**
   * Moving a slider of the loaded robot poses that joint at exactly the
   * slider's value on the next frame, and, while a device is connected,
   * sends it one line that reads back as the joint's name and the value
   * rounded to three decimals.
   */
  lemma SlideReachesRobotAndDevice(s: AppState, p: Console.Panel, name: string, value: real)
    requires s.robot.Some? && name in s.robot.value.joints
    ensures var reply := Console.SliderChange(p, name, value);
            var r := ApplyPanelEffect(s, reply.effects[0]);
            && name in Frame(r) && Frame(r)[name] == value
            && (p.writer.Some? ==>
                  && |reply.panel.device| == |p.device| + 1
                  && reply.panel.device[|p.device|].Write?
                  && WireFormat.ParseLine(reply.panel.device[|p.device|].line) == Some((name, WireFormat.Quantize(value))))
  {
    var reply := Console.SliderChange(p, name, value);
    var r := ApplyPanelEffect(s, reply.effects[0]);
    assert r.jointValues[name] == Number(value);
    WireFormat.LineRoundTrip(name, value);
  }

  /**
   * Values left over from an earlier robot, or set for names the robot
   * lacks, are never applied: only the loaded robot's joints are posed.
   */
  lemma FrameOnlyPosesRobotJoints(s: AppState, name: string, value: real)
    requires s.robot.Some? && name !in s.robot.value.joints
    ensures Frame(HandleJointChange(s, name, value)) == Frame(s)
  {
    FrameIgnoresUnknownNames(s.robot.value.joints, s.jointValues, name, Number(value));
  }
}
