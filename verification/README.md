# URDF viewer and serial joint controller — a Dafny model

This project models the logic of a browser application that shows a robot
described in URDF (the Unified Robot Description Format) and drives it
from sliders. The user uploads a single `.urdf` file or a zip archive
holding the description and its meshes. The viewer resolves the mesh
references inside the description against the uploaded files and gives
the meshes presentable materials. It then builds one slider per movable
joint and poses the robot from the slider values on every frame. It can
also open a serial port and send each slider move to a device as a line
`name:value\n`, with the value printed to three decimals.

Modules, one per concern of the program:

- `Optional`, `Strings`: option values and the string primitives the
  program relies on. These cover `split('/').pop()`,
  `endsWith`, ASCII `toLowerCase`, the `%20` replacement and decimal
  digits.
- `FileMaps`: the uploaded-file map, a JavaScript object from file name
  to `blob:` URL. Keys stay in insertion order, because the resolver
  takes the *first* matching key.
- `PathResolver`: the loader's URL modifier (`src/components/RobotModel.jsx`).
- `SceneGraph`: the post-load traversal that sets shadows and chooses
  materials.
- `Joints`: joint extraction and the per-frame pose update.
- `Upload`: the upload dialog's zip and single-file handlers. Each is a
  trace of effects: processing flag, alert, file map handed over, dialog
  closed.
- `WireFormat`: `toFixed(3)` on reals and the line sent to the device,
  with a reader for it.
- `Console`: the control panel's state. This covers the ten-line log,
  connect and disconnect, the connect/disconnect toggle and slider
  forwarding.
- `App`: the page state. It covers the initial state, the joint-change
  and files-loaded handlers, and the load effect's guard. It also covers
  load completion and how upload and panel effects reach the page.

## Model

| member | source | states |
|---|---|---|
| Strings.LastIndexOf | src/components/RobotModel.jsx:23 | the position found holds the separator and no later position does; -1 means it does not occur |
| Strings.AfterLast | src/components/UploadModal.jsx:35 | `split(c).pop()` never contains the separator; with `Strings.AfterLastIsLongestSuffix` it is the tail after the last one |
| Strings.AfterLastIsLongestSuffix | src/components/RobotModel.jsx:23 | `split(c).pop()` is the longest suffix free of the separator, and a suffix of the input |
| Strings.AfterLastJoin | src/components/UploadModal.jsx:35 | everything up to the last separator is dropped from a path |
| Strings.AfterLastNoSeparator | src/components/UploadModal.jsx:35 | a path without a separator is its own file name |
| Strings.EndsWithIsSuffix | src/components/UploadModal.jsx:39 | the case-sensitive `endsWith` test holds exactly when the suffix is the string's tail, character for character |
| Strings.EndsWithAppend | src/components/UploadModal.jsx:39 | any name built as `x + ".urdf"` passes the `.urdf` suffix test |
| Strings.ToLower | src/components/RobotModel.jsx:23-24 | lower-casing keeps the length, maps each character by ASCII lower-casing, and leaves no capital letter |
| Strings.ToLowerIdempotent | src/components/RobotModel.jsx:24 | lower-casing a lower-cased key changes nothing |
| Strings.DecodeSpaces | src/components/RobotModel.jsx:23 | the replacement never lengthens the text |
| Strings.DecodeSpacesSplice | src/components/RobotModel.jsx:23 | each `%20` becomes exactly one space: the text before the first `%20` is kept, a single space replaces it, and decoding goes on after it |
| Strings.DecodeSpacesChars | src/components/RobotModel.jsx:23 | the replacement brings in no character except the space |
| Strings.DecodeSpacesNoop | src/components/RobotModel.jsx:23 | a name without `%20` is left unchanged by the replacement |
| Strings.DecodeSpacesLeavesNone | src/components/RobotModel.jsx:23 | after the global replacement no `%20` remains |
| Strings.DecodeSpacesIdempotent | src/components/RobotModel.jsx:23 | replacing twice is replacing once |
| Strings.DecimalRoundTrip | src/components/RobotModel.jsx:113 | the decimal text of a count reads back as that count |
| Strings.PadZeros | src/components/Interface.jsx:44 | left zero padding reaches the width and keeps the value |
| FileMaps.Get | src/components/RobotModel.jsx:25 | a lookup fails exactly for absent keys; a hit is an entry of the map, and the only one in a well-formed map |
| FileMaps.Put | src/components/UploadModal.jsx:37 | an existing key keeps its position; a new key is appended; the other keys keep their order |
| FileMaps.PutGet | src/components/UploadModal.jsx:37 | reading a key right after writing it gives the written URL; other keys are untouched |
| FileMaps.PutKeys | src/components/UploadModal.jsx:37 | writing adds exactly the written key and keeps keys distinct and values `blob:` URLs |
| PathResolver.BasenameHasNoSeparator | src/components/RobotModel.jsx:23 | the extracted name contains neither `/` nor `\` |
| PathResolver.BasenameIsLastSegment | src/components/RobotModel.jsx:23 | the base name is the tail of the reference after its last `/` or `\`, holding neither separator |
| PathResolver.NormalizeIdempotent | src/components/RobotModel.jsx:23 | normalising a normalised name changes nothing |
| PathResolver.NormalizeIsPlainName | src/components/RobotModel.jsx:23 | the target name has no separator, no capital letter and no `%20` |
| PathResolver.FindKey | src/components/RobotModel.jsx:24 | `find` returns the first key, in key order, whose lower-case form equals the target, or nothing when none does |
| PathResolver.BackslashKeyNeverMatches | src/components/RobotModel.jsx:23-24 | a stored name holding `\` is never found, since keys are compared whole and a target has no `\` |
| PathResolver.DigitKeyHasNoCaseTwin | src/components/RobotModel.jsx:24 | the only name that lower-cases to an all-digit key is that key itself |
| PathResolver.IntegerKeyIsOnlyMatch | src/components/RobotModel.jsx:24 | an all-digit key that matches is the only match, so it is found whatever the key order |
| PathResolver.Resolve | src/components/RobotModel.jsx:21-27 | `blob:` URLs pass through; otherwise the first matching key's URL is returned, and the input is returned when nothing matches or the key is empty |
| PathResolver.ResolveByNameOnly | src/components/RobotModel.jsx:23-26 | two references with the same normalised file name resolve alike |
| PathResolver.BasenameIgnoresDirectory | src/components/RobotModel.jsx:23 | the directory before a `/` or `\` separator is ignored |
| PathResolver.NormalizeIgnoresCase | src/components/RobotModel.jsx:23 | a reference and its lower-cased form have the same target |
| PathResolver.ResolveIgnoresDirectoryAndCase | src/components/RobotModel.jsx:21-27 | references that differ only in directory and in letter case resolve alike, or both fall back to themselves |
| PathResolver.ResolveIdempotent | src/components/RobotModel.jsx:21-27 | when every value is a `blob:` URL, resolving a resolved URL returns it unchanged |
| SceneGraph.ChooseMaterial | src/components/RobotModel.jsx:44-77 | a missing or pure-white material becomes the platinum fallback; Standard, Physical and Phong are rebuilt as Physical keeping colour and texture; others are kept |
| SceneGraph.Traverse | src/components/RobotModel.jsx:54-78 | every node ends up casting and receiving shadows; only meshes get new materials; the tree's shape is kept |
| SceneGraph.RefittedIsDressed | src/components/RobotModel.jsx:58-63 | after the traversal every mesh has a material and none is pure white |
| Joints.ExtractJoints | src/components/RobotModel.jsx:101-111 | the configuration holds exactly the non-fixed joints, each with its limits and value 0, and the count is their number |
| Joints.FrameCommands | src/components/RobotModel.jsx:119-127 | without a robot nothing is applied; otherwise exactly the numeric values of names the robot has, unchanged |
| Joints.FrameIgnoresUnknownNames | src/components/RobotModel.jsx:122 | values under names the robot does not have never reach it |
| Upload.FileNameOfPath | src/components/UploadModal.jsx:35 | the folders of an archive path are dropped, and a bare name is its own file name |
| Upload.AbsorbGet | src/components/UploadModal.jsx:34-43 | one entry's callback makes its file name, and `urdf` when it is a description, read as its URL; every other key reads as before |
| Upload.FoldUrdfKey | src/components/UploadModal.jsx:32-48 | for every archive, the `urdf` key holds the URL of the last entry that is a description or a file named plain `urdf` |
| Upload.FoldEntryPoint | src/components/UploadModal.jsx:32-48 | the entry point ends as the last `.urdf` file of the archive |
| Upload.FoldWellFormed | src/components/UploadModal.jsx:27-43 | the built map has distinct keys, all holding `blob:` URLs |
| Upload.FoldKeys | src/components/UploadModal.jsx:32-43 | a name is a key iff some file has that name, or it is `urdf` and some description exists; directories add nothing |
| Upload.FoldLastFileWins | src/components/UploadModal.jsx:35-37 | files sharing a name leave the URL of the later one |
| Upload.FoldAlias | src/components/UploadModal.jsx:39-42 | corollary of `Upload.FoldUrdfKey`: with no file named plain `urdf`, the `urdf` key holds the entry point |
| Upload.AliasOverwrittenByFileNamedUrdf | src/components/UploadModal.jsx:37-41 | an example of `Upload.FoldUrdfKey` and `Upload.FoldEntryPoint` on one two-entry archive: a later file named plain `urdf` replaces the `urdf` key's URL while the entry point stays the description |
| Upload.ZipUpload | src/components/UploadModal.jsx:20-61 | no file does nothing; otherwise processing is on first and off last; the map is handed over, then the dialog closed, exactly when a description exists; each failure alerts its own message |
| Upload.SimpleUpload | src/components/UploadModal.jsx:63-70 | no file does nothing; a file is handed over as the map `{urdf: url}` and the dialog closes |
| WireFormat.RoundHalfUp | src/components/Interface.jsx:44 | the result is the integer within half of the input, the upper one on a tie |
| WireFormat.QuantizeIsClose | src/components/Interface.jsx:44 | the printed value is within 0.0005 of the slider value |
| WireFormat.ParseFixedRoundTrip | src/components/Interface.jsx:44 | the text `toFixed(3)` prints reads back as the value rounded to thousandths |
| WireFormat.ToFixed3Shape | src/components/Interface.jsx:44 | `toFixed(3)` prints an optional `-` exactly for negative values, digits, a point and three digits |
| WireFormat.LineFraming | src/components/Interface.jsx:44 | a line starts with the name and `:`, and ends in the only newline it holds when the name has none |
| WireFormat.ToFixed3HasNoColon | src/components/Interface.jsx:44 | the printed number contains no `:` |
| WireFormat.LineRoundTrip | src/components/Interface.jsx:44 | the line sent reads back, split at its last `:`, as the joint name and the rounded value |
| Console.LogLineReadsBack | src/components/Interface.jsx:16 | a log line is `[`, the time, `] `, the message, and both parts read back when the time holds no `]` |
| Console.AddLog | src/components/Interface.jsx:15-17 | the new line is first, older lines follow in order, at most ten are kept |
| Console.AddLogsKeepsNewest | src/components/Interface.jsx:15-17 | after any run of messages the console shows the ten newest, newest first, then the older lines |
| Console.Connect | src/components/Interface.jsx:22-32 | without serial support only the alert; on success both handles are held, the port is opened at 115200 baud and "Connected." is logged; on failure only the error message is logged; either line goes on top of the older lines, which follow unchanged |
| Console.Disconnect | src/components/Interface.jsx:34-38 | the writer is closed before the port; a rejected close stops the handler with that handle still held and nothing logged; when every close succeeds both handles are released and "Disconnected." is logged on top of the unchanged older lines, even with nothing open |
| Console.SliderChange | src/components/Interface.jsx:40-47 | the move always reaches the page; exactly one line is written when a writer is held, none otherwise |
| Console.Step | src/components/Interface.jsx:62-66 | a press or slider move only appends device operations; with a port held a press never opens one, without one it never closes one |
| Console.StepConsistent | src/components/Interface.jsx:22-66 | no writer is held without its port, the log stays within ten lines, and one port is open exactly while one is held |
| Console.RunConsistent | src/components/Interface.jsx:22-66 | from the initial panel, no run of presses, slider moves and failing closes ever opens a second port |
| App.Init | src/App.jsx:13-17 | nothing loaded, no joints, idle status with an empty message, dialog closed |
| App.HandleJointChange | src/App.jsx:19-21 | the name gets the value, unclamped; other names and the rest of the state are unchanged |
| App.HandleFilesLoaded | src/App.jsx:23-26 | the map is stored and the status becomes loading "Processing..."; joints and robot are untouched |
| App.EntryPoint | src/components/RobotModel.jsx:11 | the description is requested only when a map is present and has a non-empty `urdf` entry |
| App.StartLoad | src/components/RobotModel.jsx:10-13 | without an entry point the state is unchanged; otherwise the status becomes loading "Building Robot..." and the entry's URL is requested |
| App.LoadedMessageReports | src/components/RobotModel.jsx:113 | the success message's number reads back as the joint count |
| App.CompleteLoad | src/components/RobotModel.jsx:39-113 | no robot changes nothing; otherwise the tree is refitted, the sliders are the movable joints and the message reports their count |
| App.Frame | src/components/RobotModel.jsx:119-127 | a frame poses exactly the loaded robot's joints holding a numeric value, each at that value |
| App.ApplyUploadEffect | src/App.jsx:32-36 | only a handed-over map changes the map and status, only closing changes the dialog flag, and joints and robot are never touched |
| App.ApplyPanelEffect | src/App.jsx:109-114 | an alert leaves the page alone; a slider move sets exactly that joint's value |
| App.FailedZipUploadChangesNothing | src/components/UploadModal.jsx:50-58 | a cancelled, unreadable or description-less archive leaves the page state as it was |
| App.ZipUploadStartsLoad | src/components/UploadModal.jsx:50-55 | an archive with a description stores its map and closes the dialog; what is loaded is the last entry that is a description or a file named plain `urdf`, so the last description when no such plain file exists |
| App.EntryPointOfArchive | src/components/RobotModel.jsx:11 | for every archive, the load requests the last entry that is a description or a file named plain `urdf`, and nothing when there is none |
| App.SimpleUploadStartsLoad | src/components/UploadModal.jsx:63-70 | a single file closes the dialog and is the description loaded |
| App.SlideReachesRobotAndDevice | src/components/Interface.jsx:40-47 | a slider move poses that joint at exactly the value, and a connected device receives one line reading back as name and rounded value |
| App.FrameOnlyPosesRobotJoints | src/components/RobotModel.jsx:122 | a value set for a name the robot lacks does not change what a frame applies |

## Left out

- Auto-centring and scaling of the loaded robot (bounding box arithmetic in floating point) and the rotation by -π/2 are not modelled.
- The URDF parser, the mesh loaders, three.js rendering, the JSX render tree, the status overlay and the origin marker are not modelled; a parsed robot is an input (`App.Robot`).
- JSZip, `URL.createObjectURL`, `navigator.serial`, `TextEncoderStream` and `alert` are foreign calls: their results are parameters (`Upload.Archive`, `BlobUrl`, `Console.ConnectOutcome`) and their requests appear as effects or device operations.
- Strings.ToLower: folds ASCII letters only; JavaScript's `toLowerCase` folds all of Unicode.
- WireFormat.ToFixed3: values of magnitude 1e21 or more, which `toFixed` prints in exponent form, are not distinguished; numbers are reals, not binary doubles, so halfway cases round as exact decimals.
- `parseFloat` of the slider's text is not modelled: the slider value arrives as a real, so NaN never arises.
- Upload.ZipUpload: an archive that cannot be read and an entry that fails to decompress are one value, `Corrupt`, since both end in the same `catch`. The `.then` callbacks are taken to complete in archive order, so the *last* `.urdf` file processed is the entry point, not the first.
- Upload.FoldAlias: requires that no archive file is named plain `urdf`, because such a file, processed later, replaces the `urdf` key's URL; the rule for every archive is `Upload.FoldUrdfKey`.
- `Object.keys` lists integer-like keys first in numeric order; the file map keeps pure insertion order. The difference cannot change which key is found: an integer-like key matches only a target equal to itself, and then no other key matches (`PathResolver.IntegerKeyIsOnlyMatch`).
- FileMaps.Put: a file named `__proto__` is stored by the model, but `fileMap["__proto__"] = url` on a plain object stores nothing (it tries to set the prototype to a string). The model treats every name as an ordinary own key.
- Joints.FrameCommands: `robot.joints[key]` is also truthy for names inherited from `Object.prototype` (such as `constructor`), so the source calls `setJointValue` for them; the model treats the joint table as holding only its own keys.
- Timestamps of log lines (`toLocaleTimeString`) are a parameter, and the `setTimeout` back to idle 1.5 s after a load is not modelled.
- Console.Connect: a failure after the port is opened (for example while building the writer) leaves that port open but not held; the model treats every failure as opening nothing.
- Console.Disconnect: a rejected `writer.close()` or `port.close()` is modelled, but only as a given outcome; why the port's close fails (the encoder's pipe, never awaited, may still lock the port's writable stream) is not.
- Console.SliderChange: a rejected `writer.write` is not modelled.
- The asynchronous ordering of React state updates and `await`s is flattened: each handler runs to completion.
- Multi-material meshes (an array of materials) are not modelled; a mesh has at most one material.
- The loader reporting an error leaves the status at "Building Robot..."; the model reflects this by having no error status.
