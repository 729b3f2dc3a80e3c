# Rig picker windows — a verified model

The repository holds a family of Maya/PySide2 "rig picker" windows, each a
variant of the same tool. A picker is an ordered list of buttons. Each
button names a rig controller (a Maya node) and carries a colour, a shape,
a size (or width and height), an optional custom label, a position, a
selection flag and a draggable flag. In Edit mode the buttons are
selected, dragged, added, mirrored and deleted. In Run mode a click
selects the controller in the Maya scene. The picker is saved to and
loaded from a JSON file.

This project models, in Dafny, the document model under those windows:

- the button list as a `seq<Button>` in a class per window;
- the click, rubber-band, deselect-all and delete operations;
- the Edit/Run toggle and the polling highlight sync with the host selection;
- the three group-drag algorithms (a persistent position dictionary, explicit
  start/update/end, a per-button snapshot);
- left/right mirroring with its chained label replacements;
- the caption rules built from chained `str.replace` calls;
- every window's save and load, at the level of the JSON value tree;
- the two graphics-scene windows (`QGraphicsItem` and
  `QGraphicsProxyWidget` buttons) with their `to_dict`/`from_dict`.

Module layout:

| module | file | what it holds |
|---|---|---|
| `Wrappers` | wrappers.dfy | `Option` |
| `Text` | text.dfy | Python's `replace`, `split(':')[-1]`, `strip` |
| `Names` | names.dfy | captions, the `Con_L_`/`Con_R_` counterpart, the mirrored label |
| `Buttons` | buttons.dfy | the button record, points, identities |
| `Selection` | selection.dfy | click, rectangle, delete, toggle, highlight sync |
| `Mirroring` | mirroring.dfy | `mirror_selected_button` |
| `Json` | json.dfy | the JSON value tree, `dict.get`, the save and load loops |
| `Picker` | picker.dfy | the L/R window's file format |
| `SizedFile` | sized.dfy | the five-key file of the `size`-only windows |
| `Dragging` | drag.dfy | snapshots and group moves |
| `LR`, `Move01`, `Move03`, `GeminiPlus01`, `GeminiPlus02`, `GeminiPlus06`, `Gemini07`, `Claude02` | one file each | the windows built on `QPushButton` |
| `Scene`, `Gemini02`, `Gemini06` | scene.dfy, gemini02.dfy, gemini06.dfy | the graphics-scene windows |

Modelling conventions:

- **Identity.** Python object identity becomes a `nat` id per button or
  item. Ids strictly increase along the list (`WellFormed`, `Ordered`), so
  they are distinct.
- **Host commands.** `cmds.select` calls are appended to a `hostLog`
  field. `cmds.objExists` is membership in a set of existing node names.
  The host selection (`cmds.ls(selection=True)`) is a parameter.
- **Dialogs and geometry.** Dialog answers (file paths, confirmations,
  colours, texts) are parameters. So are Qt's geometry answers: which
  buttons a rubber band intersects, the drag distance, event positions.
- **Files.** A file is its parsed JSON value. `None` means `json.load`
  raised. The file system is a `Disk` value: the paths that exist, and
  the pixmap sizes of the images that load.
- **Loops.** Every loop of the source is a method with a `while` loop,
  proved equal to a function that specifies it. The window methods
  assign their fields from those methods.

Three behaviours of the code a reader may not expect:

- The caption of `Con_L_eye` in the L/R window is `L_eye`: only the
  `Con_` text is removed (LR.js:82).
- Most variants clear the selection only when entering Run mode. The L/R
  window clears it in both directions (LR.js:402-420).
- The graphics-scene windows clear the scene before the file is parsed
  (Gemini02.js:283-285, Gemini06.js:263-264). A file that does not parse
  therefore leaves an empty scene there; in the other windows it changes
  nothing.

## Model

| member | source | states |
|---|---|---|
| Text.ReplaceAll | LR.js:82 | `s.replace(pat, rep)` returns a text without the pattern unchanged |
| Text.ReplaceAllKeepsOut | LR.js:82 | a character in neither the subject nor the replacement is not in the result of `replace` |
| Text.ReplaceAllDeleteShortens | LR.js:82 | deleting a pattern with `replace(pat, '')` never lengthens the text |
| Text.ReplaceFirst | Mirror01.js:14-17 | `replace(pat, rep, 1)` leaves a text without the pattern unchanged, and on a text starting with it replaces only that prefix |
| Text.AfterLastColonIsLastSegment | LR.js:82 | `split(':')[-1]` is a colon-free suffix that is all of the name or follows its last ':' |
| Text.AfterLastColonNoColon | LR.js:82 | a name without ':' is returned unchanged by `split(':')[-1]` |
| Text.AfterLastColonDropsNamespace | LR.js:82 | `ns:name` gives `name` when `name` has no ':' |
| Text.ReplaceCharIsExpand | Gemini02.js:35 | a one-character `replace` is a character-by-character substitution |
| Text.ExpandCharPointwise | Gemini02.js:35 | replacing one character with one character keeps the length and substitutes in place |
| Text.StripTrims | LR.js:533-541 | `strip()` returns a piece of the text that neither starts nor ends with whitespace |
| Text.StripKeepsTrimmed | LR.js:533-541 | text without surrounding whitespace is unchanged by `strip()`, so stripping is idempotent |
| Names.StripSuffixTokens | Gemini07.js:35 | removing `_ctrl`, `_control` and `_con` in that order never lengthens the name and brings in no ':' |
| Names.StrippedName | LR.js:78-83 | the L/R caption (namespace and suffix tokens and `Con_` removed) has no ':' and is no longer than the controller name |
| Names.ShortName | Gemini07.js:35 | the caption chain without the `Con_` removal has no ':' and is no longer than the controller name |
| Names.DisplayText | LR.js:78-83 | a non-empty custom label is shown as it is; otherwise the stripped controller name is shown |
| Names.CaptionsIgnoreNamespace | Claude02.js:286 | every caption rule ignores a Maya namespace in front of the name |
| Names.SceneLabel | Gemini02.js:35 | a scene label has no '_' (each became a line break) and no ':' |
| Names.CounterpartShape | Mirror01.js:14-19 | exactly the names starting with `Con_L_` or `Con_R_` have a counterpart, which swaps that prefix and keeps the rest |
| Names.CounterpartInvolution | Mirror01.js:14-19 | the counterpart of a counterpart is the name itself, and a counterpart never equals its name |
| Names.ChainSwaps | Mirror01.js:53-56 | the chain `a -> tmp`, `b -> a`, `tmp -> b` exchanges `a` and `b` when the text holds no placeholder |
| Names.MirrorLabelSwapsSides | Mirror01.js:53-56 | a label without `TEMP`/`temp` is mirrored by swapping L with R and l with r, character by character |
| Names.MirrorLabelInvolution | Mirror01.js:53-56 | mirroring such a label twice gives it back |
| Names.MirrorLabelPlaceholderNotInvolution | Mirror01.js:53-56 | a label holding `TEMP` becomes `R`, which mirrors to `L`: the swap is not an involution there |
| Buttons.NewButton | LR.js:61-76 | a new button is draggable and unselected |
| Buttons.AppendWellFormed | LR.js:506-531 | appending a button with the next id keeps identities distinct and increasing |
| Buttons.SameIdsWellFormed | LR.js:629-638 | changing flags or positions keeps identities distinct |
| Selection.AllDeselected | LR.js:655-659 | deselect-all leaves no button selected and the same buttons in the same order |
| Selection.DeselectAll | LR.js:655-659 | the deselect loop computes `AllDeselected` |
| Selection.Clicked | LR.js:629-638 | a click changes only selection flags |
| Selection.ToggleClick | LR.js:629-638 | the click loop computes `Clicked` |
| Selection.ClickedSelection | LR.js:629-638 | without Shift exactly the clicked button ends selected (none if it was selected); with Shift only the clicked flag flips |
| Selection.ClickTwice | GeminiPlus01.js:218-227 | clicking a selected button clears the selection; clicking it again selects exactly it |
| Selection.RectSelected | LR.js:661-670 | an Edit-mode rectangle changes only selection flags |
| Selection.SelectHits | LR.js:661-670 | the rectangle loop computes `RectSelected` |
| Selection.RectSelection | LR.js:661-670 | without Shift the selection becomes exactly the hits; with Shift the old selection plus the hits; no hit is ever deselected |
| Selection.CollectHitControllers | LR.js:671-676 | the Run-mode comprehension collects the hit controllers in list order |
| Selection.HitControllersMembers | GeminiPlus01.js:265-278 | a name is sent to the host exactly when some hit button has it, and no more names than buttons are sent |
| Selection.PrefixHits | LR.js:286-311 | the L/R selectors flag one entry per button |
| Selection.CollectPrefixed | LR.js:286-311 | the selector loop collects, in list order, exactly the controllers with the prefix |
| Selection.RemoveSelected | LR.js:640-653 | the backwards delete loop leaves the unselected buttons in their order |
| Selection.UnselectedAppend | LR.js:640-653 | filtering distributes over concatenation |
| Selection.UnselectedMembers | Gemini08.js:226-244 | a button survives the delete exactly when it was in the list and unselected |
| Selection.UnselectedNoneSelected | GeminiPlus01.js:229-242 | with nothing selected the delete keeps the list |
| Selection.UnselectedWellFormed | GeminiPlus06.js:243-254 | deleting keeps identities distinct and increasing |
| Selection.WithDraggable | LR.js:402-420 | the mode toggle changes only flags |
| Selection.SetDraggable | LR.js:402-420 | the toggle loop computes `WithDraggable` |
| Selection.FirstWith | LR.js:377-383 | the first button with a controller is found, and no earlier button has it |
| Selection.Highlighted | LR.js:359-383 | the highlight sync changes only selection flags |
| Selection.Highlight | LR.js:359-383 | the two sync loops compute `Highlighted` |
| Selection.HighlightOnePerNode | LR.js:359-383 | a highlighted button's controller is host-selected; the first button of every host-selected node is highlighted; a later duplicate never is |
| Mirroring.MirrorPlan | Mirror01.js:9-23 | the plan lists selected buttons whose counterpart exists, with that counterpart |
| Mirroring.PlanMirror | Mirror01.js:9-23 | the plan loop computes `MirrorPlan` |
| Mirroring.MirrorPlanOrdered | Mirror01.js:9-23 | the plan is in strictly increasing list order, and a list position is in it exactly when that button is selected and its counterpart exists |
| Mirroring.SkipCount | Mirror01.js:32 | the reported count `len(selected) - len(mirrorable)` equals the number of skipped buttons |
| Mirroring.CountSelectedZero | Mirror01.js:3-6 | the count of selected buttons is zero exactly when nothing is selected |
| Mirroring.MirroredX | Mirror01.js:66-70 | the mirrored button's right edge sits where the original's left edge was, reflected: `x' + width == bgWidth - x` |
| Mirroring.MirroredXInvolution | Mirror01.js:66-70 | reflecting twice gives the original x |
| Mirroring.MirrorOf | Mirror01.js:43-79 | the new button has the counterpart controller, the mirrored label, copied colour/shape/size, reflected x, same y, and is selected |
| Mirroring.MirrorOfRoundTrip | Mirror01.js:43-79 | mirroring the mirror restores controller, label, colour, shape, size and position |
| Mirroring.Mirrors | Mirror01.js:43-79 | one new button per planned button |
| Mirroring.AppendMirrors | LR.js:585-620 | the confirmed mirror deselects every old button and appends the mirrors in plan order |
| Mirroring.MirroredSelection | LR.js:585-620 | afterwards exactly the new buttons are selected and the old ones keep every other field |
| Mirroring.MirrorsWellFormed | LR.js:585-620 | the new buttons take fresh increasing ids |
| Json.GetOr | LR.js:720-728 | `d.get(key, default)` is the stored value or the default |
| Json.Items | LR.js:728 | iterating a JSON list visits its elements |
| Json.AsNumber | Gemini02.js:93-101 | a JSON int is widened to a real, a JSON real is kept, anything else fails |
| Json.AsIntPair | LR.js:738 | a read pair comes from a list whose first two elements are those integers |
| Json.DecodeRecords | LR.js:728-740 | the load loop never yields more buttons than dicts, and a complete load yields one per dict |
| Json.ReadButtons | LR.js:728-740 | the load loop computes `DecodeRecords` |
| Json.DecodeRecordsStops | Gemini08.js:290-307 | after a dict fails, later dicts are not read |
| Json.DecodeRecordsIds | LR.js:728-740 | loaded buttons get consecutive fresh ids |
| Json.DecodeRecordsComplete | LR.js:728-740 | the load is complete exactly when every dict decodes, and then button k is dict k's button |
| Json.DecodeEncoded | LR.js:693-741 | dicts written by an encoder are all read back, in order, as the restore function says |
| Json.Encoded | LR.js:701-710 | the save writes one dict per button |
| Json.EncodeButtons | LR.js:701-710 | the save loop computes `Encoded` |
| Picker.AddedButton | LR.js:506-531 | an added button sits at (10, 10), is as high as wide when a circle, has the stripped label and is unselected and draggable |
| Picker.DecodeButton | LR.js:728-740 | a loaded button has its new id and is unselected and draggable |
| Picker.DecodeEncodedButton | LR.js:693-741 | a saved dict reads back as the same button with a new identity, unselected and draggable |
| Picker.LegacySizeFallback | LR.js:729-732 | without `width`/`height` both come from `size`, or 40; `custom_text` defaults to '' |
| Picker.SaveLoadRoundTrip | LR.js:693-741 | a saved file loads every button in order with the same fields, and the background image and size as saved when the image exists |
| Picker.LoadedSizeDefault | LR.js:720-722 | without `background_size` the picker is 800 x 600 |
| SizedFile.SizedButton | GeminiPlus01.js:203-216 | a button of the size-only windows is square, unlabelled, unselected and draggable |
| SizedFile.DecodeSized | GeminiPlus02.js:316-321 | a loaded button is square, unselected, draggable and has its new id |
| SizedFile.DecodeEncodedSized | GeminiPlus01.js:295-320 | a saved five-key dict reads back as the same button |
| SizedFile.SizedRestoredExact | GeminiPlus01.js:295-320 | on these windows' buttons a round trip changes only identity and flags |
| SizedFile.DecodeSizedNeedsSize | GeminiPlus02.js:316-321 | a dict without `size` fails to load |
| SizedFile.SizedSaveLoadRoundTrip | GeminiPlus01.js:295-320 | a saved file loads every button in order with controller, position, colour, shape and size, and the background when it exists |
| SizedFile.SizedButtonsFacts | Gemini08.js:287-307 | loaded buttons are square and carry consecutive fresh ids |
| SizedFile.DecodeRecordsKeeps | Gemini08.js:287-307 | loaded buttons are square and unselected |
| SizedFile.UnselectedAllSized | Gemini08.js:226-244 | deleting keeps the rest square |
| SizedFile.PartialLoadAfterBadRecord | Gemini08.js:290-307 | a file whose second dict lacks keys leaves only the first button, after the old ones were cleared |
| Json.DecodeAllAgrees | Gemini08.js:290-307 | reading every dict or none succeeds exactly when the read loop completes, with the same buttons |
| SizedFile.CheckedLoad | Gemini08.js:290-307 | a checked load reads all dicts or nothing |
| SizedFile.CheckedLoadAgrees | Gemini08.js:290-307 | the checked load accepts exactly the files the loop reads completely, with the same result |
| SizedFile.CheckedLoadAcceptsSaved | Gemini08.js:271-285 | every saved file passes the checked load and gives back its buttons |
| SizedFile.CheckedLoadFacts | Gemini08.js:290-307 | the checked load's buttons are square, unselected, with fresh ids |
| Dragging.SelectedPositions | Move01.js:265-268 | the snapshot only holds selected buttons |
| Dragging.SelectedPositionsExact | GeminiPlus02.js:225-226 | the snapshot holds exactly the selected buttons, each at its position |
| Dragging.RecordSelected | Move01.js:265-268 | the snapshot loop computes `SelectedPositions` |
| Dragging.Shifted | Move01.js:271-275 | a group move changes only positions |
| Dragging.MoveSnapshot | Move01.js:271-275 | the move loop computes `Shifted` |
| Dragging.ShiftedKeepsOffsets | Move01.js:273-275 | two moved buttons keep the offset between their recorded positions |
| Dragging.ShiftedFromSnapshot | Move03.js:78-88 | from a fresh snapshot only selected buttons move, they keep their pairwise offsets, and a zero offset changes nothing |
| Dragging.ShiftedLatestWins | GeminiPlus02.js:228-230 | a later update from the same snapshot overrides an earlier one: offsets do not accumulate |
| LR.RigPickerTool.constructor | LR.js:132-153 | the window opens empty in Edit mode with an 800 x 600 background |
| LR.RigPickerTool.SetCustomText | LR.js:85-87 | the label is stored; the caption follows it |
| LR.RigPickerTool.EditButtonText | LR.js:533-541 | an accepted dialog stores the stripped answer; a cancelled one changes nothing |
| LR.RigPickerTool.ButtonPress | LR.js:103-119 | a left press in Edit mode runs the click and records the drag origin; a right press edits the label; a Run-mode press selects the node on the host |
| LR.RigPickerTool.ButtonMove | LR.js:121-125 | past the drag distance only the dragged button moves |
| LR.RigPickerTool.ButtonRelease | LR.js:127-129 | the drag origin is forgotten |
| LR.RigPickerTool.HandleButtonSelection | LR.js:629-638 | the click toggles the clicked flag and, without Shift, clears the others |
| LR.RigPickerTool.DeselectAllButtons | LR.js:655-659 | every flag false, nothing else changed |
| LR.RigPickerTool.SelectButtonsInRect | LR.js:661-676 | Edit mode selects the hits (added under Shift); Run mode sends their controllers to the host, clearing it when there are none and no Shift |
| LR.RigPickerTool.SelectSideControllers | LR.js:286-311 | the prefixed controllers replace the host selection, or it is cleared when there are none |
| LR.RigPickerTool.CheckSelectionChange | LR.js:359-383 | nothing in Edit mode or for an unchanged selection; otherwise it is remembered and the buttons highlighted |
| LR.RigPickerTool.ToggleEditMode | LR.js:402-420 | draggable follows the mode, the selection is cleared in both directions, and Run mode then syncs the highlight |
| LR.RigPickerTool.AddPickerButton | LR.js:506-531 | with a list item one `AddedButton` is appended with a fresh id; otherwise nothing changes |
| LR.RigPickerTool.ChooseButtonColor | LR.js:687-691 | a valid pick becomes the colour of later buttons |
| LR.RigPickerTool.DeleteSelectedButton | LR.js:640-653 | a confirmed delete removes exactly the selected buttons, order kept |
| LR.RigPickerTool.MirrorSelectedButton | LR.js:543-620 | nothing changes without a selection, without a mirrorable button or without consent; otherwise the mirrors are appended and exactly they are selected, and the skip count is reported |
| LR.RigPickerTool.SetBackgroundImage | LR.js:760-768 | the path is kept; a loading image sets the picker size |
| LR.RigPickerTool.ClearBackgroundImage | LR.js:770-778 | no image, 800 x 600 |
| LR.RigPickerTool.ClearPicker | LR.js:744-747 | no buttons and no background image |
| LR.RigPickerTool.SavePicker | LR.js:693-712 | nothing without a path; otherwise `SaveDocument` of the current state |
| LR.RigPickerTool.LoadPicker | LR.js:714-741 | a file that does not parse changes nothing; otherwise the picker is cleared, the background and buttons read as `LoadedBackground`/`LoadedButtons` say, stopping at the first bad dict |
| LR.RigPickerTool.LoadDocument | LR.js:720-741 | the part of the load after the clear |
| LR.RigPickerTool.ReadBackground | LR.js:720-726 | the background part of the load, as `LoadedBackground` |
| LR.RigPickerTool.AppendRecords | LR.js:728-740 | the button loop appends `DecodeRecords` |
| Move01.RigPickerTool.constructor | Move01.js:134-149 | empty picker in Edit mode, nothing recorded |
| Move01.RigPickerTool.MoveSelectedButtons | Move01.js:262-275 | the first call records the selected positions; every call moves each selected recorded button to recorded + offset |
| Move01.FreshRecordMovesSelection | Move01.js:262-275 | a fresh record holds exactly the selected buttons, so the selected-only move and the plain move agree |
| Move01.RigPickerTool.HandleButtonSelection | Move01.js:400-412 | the click, and the recorded positions are forgotten |
| Move01.RigPickerTool.DeselectAllButtons | Move01.js:431-437 | every flag false, recorded positions forgotten |
| Move01.RigPickerTool.DeleteSelectedButton | Move01.js:414-429 | a confirmed delete keeps the unselected buttons and forgets the record |
| Move01.RigPickerTool.SelectButtonsInRect | Move01.js:439-456 | Edit mode selects the hits and forgets the record; Run mode only talks to the host |
| Move01.RigPickerTool.ToggleEditMode | Move01.js:254-259 | draggable follows the mode; only entering Run mode deselects |
| Move01.RigPickerTool.ButtonPress | Move01.js:97-113 | a left press in Edit mode clicks (forgetting the record) and records the drag origin |
| Move01.RigPickerTool.ButtonMove | Move01.js:115-127 | a selected button drags every selected button; an unselected one moves alone |
| Move01.RigPickerTool.ButtonRelease | Move01.js:129-131 | forgets the drag origin and keeps the record |
| Move01.RigPickerTool.ClearPicker | Move01.js:524-529 | no buttons, no image, no record |
| Move01.RigPickerTool.SavePicker | Move01.js:473-492 | nothing without a path; otherwise `SaveDocument` |
| Move01.RigPickerTool.LoadPicker | Move01.js:494-522 | as the L/R load: cleared after a parse, buttons in file order with the size fallbacks |
| Move01.RigPickerTool.LoadDocument | Move01.js:497-522 | the part of the load after the clear |
| GeminiPlus02.GuardedClick | GeminiPlus02.js:236-247 | the click as written changes only selection flags |
| GeminiPlus02.GuardedClickSelection | GeminiPlus02.js:236-247 | with Shift only the clicked flag flips; without Shift an unselected button or a running drag gives exactly the clicked one; a selected button with no snapshot is toggled off and the others kept |
| GeminiPlus02.PressOnSelectedNeverDrags | GeminiPlus02.js:85-91 | as written a press on a selected button leaves it unselected |
| GeminiPlus02.PressOnSelectedExample | GeminiPlus02.js:85-91 | the concrete case of two selected buttons |
| GeminiPlus02.IntendedClick | GeminiPlus02.js:236-247 | the corrected click changes only selection flags |
| GeminiPlus02.IntendedPressDragsSelection | GeminiPlus02.js:85-91 | with the corrected click a press on a selected button keeps the selection and the snapshot holds every selected button |
| GeminiPlus02.RigPickerTool.constructor | GeminiPlus02.js:120-133 | empty picker in Edit mode, empty snapshot |
| GeminiPlus02.RigPickerTool.StartMultiDrag | GeminiPlus02.js:225-226 | the snapshot becomes the selected positions |
| GeminiPlus02.RigPickerTool.UpdateMultiDrag | GeminiPlus02.js:228-230 | every snapshotted button goes to its snapshot position + delta |
| GeminiPlus02.RigPickerTool.EndMultiDrag | GeminiPlus02.js:232-233 | the snapshot is emptied |
| GeminiPlus02.RigPickerTool.HandleButtonSelection | GeminiPlus02.js:236-247 | the guarded click |
| GeminiPlus02.RigPickerTool.PressDraggable | GeminiPlus02.js:86-91 | the left press on a draggable button applies the guarded click; a button selected afterwards records its origin and snapshots exactly the selected positions |
| GeminiPlus02.RigPickerTool.PressDraggableIntended | GeminiPlus02.js:86-91 | the corrected press uses the intended click: a press without Shift on a selected button, with no drag in progress, keeps every button as it was and snapshots exactly the selected positions |
| GeminiPlus02.RigPickerTool.ButtonPress | GeminiPlus02.js:85-102 | the selection runs first; only a button then selected records the origin and starts the multi-drag; Run mode selects on the host |
| GeminiPlus02.RigPickerTool.ButtonMove | GeminiPlus02.js:104-110 | while an origin is recorded on a draggable button the offset is forwarded |
| GeminiPlus02.RigPickerTool.ButtonRelease | GeminiPlus02.js:112-117 | a recorded origin is forgotten and the multi-drag ended |
| GeminiPlus02.RigPickerTool.DeselectAllButtons | GeminiPlus02.js:264-268 | every flag false |
| GeminiPlus02.RigPickerTool.ToggleEditMode | GeminiPlus02.js:202-207 | draggable follows the mode; only entering Run mode deselects |
| GeminiPlus02.RigPickerTool.DeleteSelectedButton | GeminiPlus02.js:249-262 | a confirmed delete keeps exactly the unselected buttons |
| GeminiPlus02.RigPickerTool.SelectButtonsInRect | GeminiPlus02.js:270-284 | Edit mode selects the hits; Run mode sends their controllers to the host |
| GeminiPlus02.RigPickerTool.AddPickerButton | GeminiPlus02.js:209-223 | with a list item one square button at (10, 10) |
| GeminiPlus02.RigPickerTool.ClearPicker | GeminiPlus02.js:326-329 | no buttons, empty snapshot, no image |
| GeminiPlus02.RigPickerTool.SavePicker | GeminiPlus02.js:299-307 | nothing without a path; otherwise `SizedDocument` |
| GeminiPlus02.RigPickerTool.LoadPicker | GeminiPlus02.js:309-324 | cleared after a parse; background restored if it exists; buttons read until a dict lacks a key; a complete load re-applies the mode |
| Move03.PickerArea.AddButton | Move03.js:5-21 | a new button is draggable and unselected, with no drag state |
| Move03.PickerArea.SetCustomText | Move03.js:30-32 | the label is stored and the caption follows it |
| Move03.PickerArea.ButtonPress | Move03.js:48-75 | a left press on a draggable button clicks first and, if the button is then selected, snapshots every selected button; a right press in Edit mode only asks for a label |
| Move03.PickerArea.ButtonMove | Move03.js:77-92 | past the drag distance a selected button with a snapshot moves every snapshotted button to initial + delta; otherwise only itself |
| Move03.PickerArea.ButtonRelease | Move03.js:94-96 | both the drag origin and the snapshot are cleared |
| Move03.PressSnapshotMovesSelection | Move03.js:49-88 | after a press snapshot, a move translates exactly the selected buttons by the delta |
| GeminiPlus01.RigPickerTool.constructor | GeminiPlus01.js:115-124 | empty picker in Edit mode |
| GeminiPlus01.RigPickerTool.HandleButtonSelection | GeminiPlus01.js:218-227 | the clicked flag is negated; without Shift the others are cleared |
| GeminiPlus01.RigPickerTool.ButtonPress | Gemini08.js:66-89 | a left press on a draggable button clicks and records the origin; in Run mode the existing controller is selected on the host, added under Shift |
| GeminiPlus01.RigPickerTool.ButtonMove | GeminiPlus01.js:104-108 | past the drag distance the button alone follows the cursor |
| GeminiPlus01.RigPickerTool.ButtonRelease | GeminiPlus01.js:110-112 | the drag origin is forgotten |
| GeminiPlus01.RigPickerTool.DeselectAllButtons | GeminiPlus01.js:245-249 | every flag false, nothing else changed |
| GeminiPlus01.RigPickerTool.ToggleEditMode | Gemini08.js:180-190 | draggable follows the mode; only entering Run mode deselects |
| GeminiPlus01.RigPickerTool.DeleteSelectedButton | GeminiPlus01.js:229-242 | a confirmed delete keeps exactly the unselected buttons in order; otherwise nothing changes |
| GeminiPlus01.RigPickerTool.SelectButtonsInRect | GeminiPlus01.js:252-278 | Edit mode selects the hits; Run mode sends their controllers, clearing the host on an empty hit without Shift |
| GeminiPlus01.RigPickerTool.AddPickerButton | Gemini08.js:192-207 | with a list item one square button at (10, 10) with the spin-box size; otherwise nothing |
| GeminiPlus01.RigPickerTool.SetBackgroundImage | GeminiPlus01.js:338-341 | the path is stored |
| GeminiPlus01.RigPickerTool.ClearPicker | GeminiPlus01.js:322-325 | no buttons and no image |
| GeminiPlus01.RigPickerTool.SavePicker | Gemini08.js:271-285 | nothing without a path; otherwise one five-key dict per button in list order |
| GeminiPlus01.RigPickerTool.LoadPicker | Gemini08.js:287-307 | a file that does not parse changes nothing; otherwise cleared, background restored, buttons read until a bad dict |
| GeminiPlus01.RigPickerTool.LoadPickerChecked | Gemini08.js:290-307 | the corrected load: a file that does not load completely changes nothing; otherwise it replaces the picker |
| GeminiPlus06.Clamp01 | GeminiPlus06.js:363 | `max(0.0, min(1.0, v))` lies in [0, 1] and is `v` inside it |
| GeminiPlus06.ClampRel | GeminiPlus06.js:358-363 | a measured relative position is clamped into the unit square |
| GeminiPlus06.ClampRelIdempotent | GeminiPlus06.js:358-363 | clamping twice is clamping once |
| GeminiPlus06.DecodeButton06 | GeminiPlus06.js:303-312 | a loaded button is at the origin, unlabelled, unselected, draggable, and 40 wide/high without the keys |
| GeminiPlus06.DecodeEncoded06 | GeminiPlus06.js:284-312 | a saved dict reads back with its fields and its relative position |
| GeminiPlus06.LoadedRelatives | GeminiPlus06.js:309-311 | the load leaves a relative position on exactly the loaded buttons |
| GeminiPlus06.ReadRelatives | GeminiPlus06.js:309-311 | the loop computes `LoadedRelatives` |
| GeminiPlus06.SaveLoadRoundTrip06 | GeminiPlus06.js:284-314 | a saved file loads every button in order with controller, colour, shape, size and relative position |
| GeminiPlus06.LoadDropsPosition | GeminiPlus06.js:303-312 | a button saved at (100, 100) comes back somewhere else |
| GeminiPlus06.DecodePlaced06 | GeminiPlus06.js:303-312 | the corrected read succeeds exactly when the original does and differs only in position |
| GeminiPlus06.DecodePlacedRoundTrip | GeminiPlus06.js:284-312 | with the corrected read a saved button comes back where it was |
| GeminiPlus06.RigPickerTool.constructor | GeminiPlus06.js:117-128 | empty picker in Edit mode |
| GeminiPlus06.RigPickerTool.HandleButtonSelection | GeminiPlus06.js:234-241 | the clicked flag is negated; without Shift the others are cleared |
| GeminiPlus06.RigPickerTool.ButtonPress | GeminiPlus06.js:87-101 | a left press on a draggable button clicks and records the origin; in Run mode the existing controller is selected |
| GeminiPlus06.RigPickerTool.ButtonMove | GeminiPlus06.js:103-107 | past the drag distance the button alone follows the cursor |
| GeminiPlus06.RigPickerTool.ButtonRelease | GeminiPlus06.js:109-114 | a finished drag forgets its origin and stores the clamped relative position when there is a pixmap |
| GeminiPlus06.RigPickerTool.DeselectAllButtons | GeminiPlus06.js:256-258 | every flag false |
| GeminiPlus06.RigPickerTool.ToggleEditMode | GeminiPlus06.js:209-214 | draggable follows the mode; only entering Run mode deselects |
| GeminiPlus06.RigPickerTool.DeleteSelectedButton | GeminiPlus06.js:243-254 | a confirmed delete keeps exactly the unselected buttons in order |
| GeminiPlus06.RigPickerTool.SelectButtonsInRect | GeminiPlus06.js:260-269 | Edit mode selects the hits; Run mode sends their controllers, clearing the host on an empty hit without Shift |
| GeminiPlus06.RigPickerTool.AddPickerButton | GeminiPlus06.js:218-232 | with a list item one button at the end, a circle as high as wide |
| GeminiPlus06.RigPickerTool.ClearPicker | GeminiPlus06.js:316-318 | no buttons and no image |
| GeminiPlus06.RigPickerTool.SavePicker | GeminiPlus06.js:284-294 | nothing without a path; otherwise `Document06` |
| GeminiPlus06.RigPickerTool.LoadPicker | GeminiPlus06.js:296-314 | cleared after a parse; buttons read until a bad dict, each relative position overwritten only when saved |
| Gemini07.Caption07 | Gemini07.js:35 | the caption has no ':' and is no longer than the controller name |
| Gemini07.Caption07IgnoresNamespace | Gemini07.js:35 | the caption of a name with or without a namespace is the plain name with the suffix tokens removed |
| Gemini07.Caption07SkipsPrefixRemoval | Gemini07.js:35 | removing `Con_` from this caption gives the L/R caption: the two chains differ only in that last step |
| Gemini07.Caption07KeepsPlainName | Gemini07.js:35 | a name without ':' and without `_ctrl`, `_control` and `_con` is shown unchanged, a `Con_` prefix included |
| Gemini07.RigPickerTool.constructor | Gemini07.js:107-119 | empty picker in Edit mode |
| Gemini07.RigPickerTool.ButtonClicked | Gemini07.js:69-84 | only a non-draggable button with an existing controller selects it on the host |
| Gemini07.RigPickerTool.ButtonPress | Gemini07.js:86-89 | a left press on a draggable button records the origin |
| Gemini07.RigPickerTool.ButtonMove | Gemini07.js:91-98 | past the drag distance the button follows the cursor |
| Gemini07.RigPickerTool.ButtonRelease | Gemini07.js:100-104 | the origin is forgotten |
| Gemini07.RigPickerTool.ToggleEditMode | Gemini07.js:205-210 | draggable follows the mode and nothing else changes |
| Gemini07.RigPickerTool.AddPickerButton | Gemini07.js:232-250 | with a list item one square button at (10, 10); otherwise nothing |
| Gemini07.RigPickerTool.DeleteSelectedButton | Gemini07.js:252-254 | nothing changes |
| Gemini07.RigPickerTool.ClearPicker | Gemini07.js:317-322 | no buttons and no image |
| Gemini07.RigPickerTool.SavePicker | Gemini07.js:256-280 | nothing without a path; otherwise `SizedDocument` |
| Gemini07.RigPickerTool.LoadPicker | Gemini07.js:282-315 | a file that does not parse changes nothing; otherwise cleared, background restored, buttons in file order until a bad dict |
| Claude02.Placement | Claude02.js:190-193 | the n-th added button is at (300, 60n + 50) |
| Claude02.PlacementSpacing | Claude02.js:190-193 | successive buttons form one column 60 pixels apart |
| Claude02.Entries | Claude02.js:269-273 | one tuple per button, in list order |
| Claude02.CollectEntries | Claude02.js:271-272 | the comprehension loop computes `Entries` |
| Claude02.GeneratedMatchesCreator | Claude02.js:352-357 | the generated window shows each button with the creator's caption, position, colour, shape and size |
| Claude02.SelectController | Claude02.js:386-395 | the host selection is replaced by the controller exactly when it exists |
| Claude02.GeneratedButtonSelects | Claude02.js:384-395 | clicking the k-th generated button selects the k-th creator button's controller |
| Claude02.LoadedName | Claude02.js:243 | the character name defaults to '' |
| Claude02.CreatorSaveLoadRoundTrip | Claude02.js:195-261 | a saved file restores the character name and every button in order |
| Claude02.DecodedDraggable | Claude02.js:246-256 | every loaded button is draggable |
| Claude02.RigPickerCreator.constructor | Claude02.js:8-14 | empty creator without a name |
| Claude02.RigPickerCreator.SetCharacterName | Claude02.js:43-46 | the text typed into the character-name field becomes the name that save and generate read |
| Claude02.RigPickerCreator.AddPickerButton | Claude02.js:171-193 | with a list item one square button at `Placement(n)` |
| Claude02.RigPickerCreator.ButtonPress | Claude02.js:314-317 | a left press records the drag origin |
| Claude02.RigPickerCreator.ButtonMove | Claude02.js:319-329 | past the drag distance the button follows the cursor |
| Claude02.RigPickerCreator.ButtonRelease | Claude02.js:331-333 | the origin is forgotten |
| Claude02.RigPickerCreator.SavePicker | Claude02.js:195-224 | refused without a name; nothing without a path; otherwise `CreatorDocument` |
| Claude02.RigPickerCreator.GeneratePickerUi | Claude02.js:263-274 | refused without a name; otherwise the name and `Entries` |
| Claude02.RigPickerCreator.LoadPicker | Claude02.js:226-261 | a file that does not parse changes nothing; otherwise cleared, the name set, buttons in file order |
| Scene.SceneLabelChars | Gemini02.js:35 | the label keeps every character of the short name in place, each '_' a line break |
| Scene.AsColor | Gemini02.js:98 | a read colour has components in 0..255 |
| Scene.AsPointF | Gemini02.js:100 | an empty position list is the origin |
| Scene.FromDict | Gemini02.js:93-101 | a read item has the stored node name, colour and position, its new id, is movable, selectable and unselected |
| Scene.FromDictToDict | Gemini02.js:83-101 | `from_dict(to_dict(b))` reproduces node name, shape, size, colour and position |
| Scene.ToDicts | Gemini02.js:321-323 | one dict per listed item |
| Scene.WriteDicts | Gemini02.js:321-323 | the save loop computes `ToDicts` |
| Scene.DecodeItems | Gemini02.js:295-297 | the open loop never yields more items than dicts, and a complete open yields one per dict |
| Scene.ReadStep | Gemini02.js:295-297 | one loop turn adds at most one item and nothing after a failure |
| Scene.ReadItems | Gemini02.js:295-297 | the open loop computes `DecodeItems` |
| Scene.DecodeItemsStops | Gemini02.js:295-297 | after a dict fails later dicts are not read |
| Scene.DecodeItemsFresh | Gemini06.js:272-276 | opened items get consecutive fresh ids, unselected, in the window's mode |
| Scene.DecodeItemsOrdered | Gemini02.js:295-297 | items opened into the cleared scene have increasing ids below the next id and valid colours |
| Scene.DecodeItemsAll | Gemini02.js:295-297 | when every dict reads, all are read in order |
| Scene.DecodeItemsToDicts | Gemini02.js:83-101 | dicts written by `to_dict` are all read back in order |
| Scene.ReopenedAll | Gemini02.js:83-101 | each item reopened with consecutive ids |
| Scene.Permuted | Gemini02.js:321 | the scene listing holds the items in the order Qt gives |
| Scene.PermutedCovers | Gemini02.js:321 | every item of the scene is listed |
| Scene.IdentityOrder | Gemini02.js:321 | the list order is one possible scene order |
| Scene.OpenSavedWithBackgroundFails | Gemini02.js:287-291 | as written a file saved with an existing background opens to an empty scene |
| Scene.OpenSavedNoBackground | Gemini02.js:277-300 | as written a file without a background opens completely |
| Scene.OpenSavedIntended | Gemini02.js:109-119 | with the corrected open every saved file opens completely, with the background when it exists |
| Scene.OpenedAgreeWithoutBackground | Gemini02.js:287-291 | the two opens differ only on files naming an existing background |
| Scene.RemoveSelectedItems | Gemini02.js:267-269 | the delete loop leaves the unselected items in order |
| Scene.KeptAppend | Gemini02.js:267-269 | filtering distributes over concatenation |
| Scene.KeptMembers | Gemini02.js:267-269 | an item survives exactly when it was unselected |
| Scene.KeptOrdered | Gemini06.js:249-252 | deleting keeps the scene ordered with valid colours |
| Scene.WithSelection | Gemini02.js:37-38 | a scene selection chooses exactly the selectable items whose identity Qt reports, and changes nothing but the selected flag |
| Scene.SelectThenDelete | Gemini02.js:267-269 | after such a selection the delete removes exactly the chosen selectable items; ids stay ordered and colours valid |
| Scene.NewItems | Gemini02.js:252-265 | one new item per host-selected node, in selection order |
| Scene.NewItemsOrdered | Gemini06.js:233-247 | appending new items keeps the scene ordered |
| Gemini02.WithMovable | Gemini02.js:231-236 | the toggle changes only the movable flag |
| Gemini02.SetMovable | Gemini02.js:231-236 | the toggle loop computes `WithMovable` |
| Gemini02.WithMovableKeeps | Gemini02.js:231-236 | ids, colours and selection stay |
| Gemini02.SaveOpenRoundTrip | Gemini02.js:302-326 | saving then opening with the corrected open gives back every item in scene order |
| Gemini02.RigPickerWindow.constructor | Gemini02.js:122-134 | empty scene in Edit mode |
| Gemini02.PressCommands | Gemini02.js:61-71 | the press raises exactly when the view's parent is the plain widget; otherwise it sends a host select of the node, added under Shift, exactly in Run mode with an existing node |
| Gemini02.RunModePressRaises | Gemini02.js:61-71 | as built, a Run-mode press on an existing node raises and selects nothing; with the picker window as parent it selects the node |
| Gemini02.RigPickerWindow.ButtonPress | Gemini02.js:61-71 | as written the press raises in both modes and changes nothing, neither the host selection nor Qt's default press |
| Gemini02.RigPickerWindow.ButtonPressIntended | Gemini02.js:61-71 | the intended press changes the host log exactly in Run mode with an existing node, by one select added under Shift |
| Gemini02.RigPickerWindow.ToggleEditMode | Gemini02.js:231-236 | the mode and every movable flag follow the check |
| Gemini02.RigPickerWindow.ChooseColor | Gemini02.js:238-243 | a valid colour becomes current with alpha 180 |
| Gemini02.RigPickerWindow.SetBackgroundImage | Gemini02.js:245-250 | a chosen path is kept |
| Gemini02.RigPickerWindow.AddControlButton | Gemini02.js:252-265 | one new item per host-selected node |
| Gemini02.RigPickerWindow.DeleteSelectedButton | Gemini02.js:267-269 | exactly the selected items leave the scene |
| Gemini02.RigPickerWindow.SetSelection | Gemini02.js:37-38 | the identities Qt chose become the selection of the (always selectable) items |
| Gemini02.RigPickerWindow.NewPicker | Gemini02.js:271-275 | empty scene without file or background |
| Scene.OpenDocument | Gemini02.js:287-297 | after clearing, the background check and the read loop give exactly `OpenedAsWritten`, with ordered ids and valid colours |
| Scene.OpenDocumentIntended | Gemini02.js:287-297 | the corrected background handling and the read loop give exactly `OpenedIntended`, with ordered ids and valid colours |
| Gemini02.RigPickerWindow.OpenPicker | Gemini02.js:277-300 | the scene is cleared, then the file opened as `OpenedAsWritten` says |
| Gemini02.RigPickerWindow.OpenPickerIntended | Gemini02.js:277-300 | the corrected open, as `OpenedIntended` says |
| Gemini02.RigPickerWindow.SavePicker | Gemini02.js:302-306 | to the current file, or as save-as |
| Gemini02.RigPickerWindow.SavePickerAs | Gemini02.js:308-314 | a chosen path becomes the current file |
| Gemini02.RigPickerWindow.SaveToFile | Gemini02.js:316-326 | the background path and one dict per item in scene order |
| Gemini06.WithEditMode | Gemini06.js:211-219 | movable, selectable and edit flags follow the mode; leaving Edit mode drops the selection |
| Gemini06.SetEditMode | Gemini06.js:211-219 | the toggle loop computes `WithEditMode` |
| Gemini06.WithEditModeKeeps | Gemini06.js:211-219 | ids, colours and positions stay; Run mode leaves nothing selected |
| Gemini06.SaveOpenRoundTrip | Gemini06.js:280-299 | saving then opening with the corrected open gives back every item in scene order |
| Gemini06.RigPickerWindow.constructor | Gemini06.js:133-142 | empty scene in Edit mode |
| Gemini06.RigPickerWindow.ButtonClicked | Gemini06.js:79-89 | an item not in Edit mode selects its existing node, added under Shift |
| Gemini06.RigPickerWindow.ToggleEditMode | Gemini06.js:211-219 | the mode and every item's flags follow the check |
| Gemini06.RigPickerWindow.ChooseColor | Gemini06.js:221-225 | a valid colour becomes current as chosen |
| Gemini06.RigPickerWindow.SetBackgroundImage | Gemini06.js:227-231 | a chosen path is kept |
| Gemini06.RigPickerWindow.AddControlButton | Gemini06.js:233-247 | one new item per host-selected node, in the current mode |
| Gemini06.RigPickerWindow.DeleteSelectedButton | Gemini06.js:249-252 | exactly the selected items leave the scene |
| Gemini06.RigPickerWindow.SetSelection | Gemini06.js:217-218 | the identities Qt chose become the selection, taken only by items selectable in the current mode |
| Gemini06.RigPickerWindow.NewPicker | Gemini06.js:254-258 | empty scene without file or background |
| Gemini06.RigPickerWindow.OpenPicker | Gemini06.js:260-278 | the scene is cleared, then the file opened as `OpenedAsWritten` says |
| Gemini06.RigPickerWindow.OpenPickerIntended | Gemini06.js:260-278 | the corrected open, as `OpenedIntended` says |
| Gemini06.RigPickerWindow.SavePicker | Gemini06.js:280-282 | to the current file, or as save-as |
| Gemini06.RigPickerWindow.SavePickerAs | Gemini06.js:284-289 | a chosen path becomes the current file |
| Gemini06.RigPickerWindow.SaveToFile | Gemini06.js:291-299 | the background path and one dict per item in scene order |

## Left out

- Qt rendering is not modelled: stylesheets, fonts, `paint`, `boundingRect`, window titles and layouts.
- Gemini02.js's hover handlers (Gemini02.js:73-81) are left out. They set the item's own colour alpha to 255 on enter and 180 on leave, and `to_dict` saves that alpha. So after a hover, an item loaded with another alpha is saved with alpha 180. `Scene.FromDictToDict` and `Gemini02.SaveOpenRoundTrip` hold only for items that were not hovered.
- Qt's own event handling is not modelled. This covers the default press, selection and drag of graphics items in Edit mode, and resize events.
- Geometry answers are parameters, not computed. This covers the rubber band's intersection with each button, the drag distance, event positions and the order of `scene.items()`.
- The controller list widget and its refresh from `cmds.ls` are left out. The chosen list item is a parameter.
- Message boxes and prints are left out. They change no state.
- `json.dump` write failures are left out. A save returns the document it writes.
- File-system effects are reduced to a `Disk` value: which paths exist and which images load with what size.
- Floating-point screen geometry of GeminiPlus06.js (`get_scaled_pixmap_geometry`, `update_all_button_positions`) is left out. The measured relative position is a parameter.
- A JSON value of an unexpected type is treated as a failed load. In Python it would raise somewhere else, or in a few cases be accepted. Examples are a non-string controller, or `os.path.exists` on a non-string.
- Colour components outside 0..255 count as a failed load in the scene windows. Qt would instead build an invalid colour.
- The graphics-scene files require `shape` to be a string and `size` an integer.
- Text handling has no Unicode normalisation or case folding. `str.isspace` is modelled by the list of whitespace code points.
- Move01.js's `mirror_selected_button`, `add_picker_button` and `edit_button_text` are the L/R window's code, modelled once in `LR`.
- The L/R window's `mirror_selected_values` and `reset_selected_controllers` are left out. They set Maya attributes, outside the picker document.
- `update_lr_button_positions` is left out. It only places the two L/R buttons on the screen.
- Claude02.js's fallback colour dialog is left out, as are spin-box ranges.
- GeminiPlus06.js's `on_shape_changed` is left out. It only enables a spin box.
- Claude03 .js and the Visibility and other files are not part of this model.
- LR.RigPickerTool.CheckSelectionChange: the polling timer is left out; each call is one poll.
- Gemini02.RigPickerWindow.ButtonPressIntended: in Edit mode the intended press is Qt's default item press; the model does not compute which items a press or rubber band selects, and takes Qt's answer as the parameter of `SetSelection`. As written, the press raises before Qt's default press is reached.

## Findings

| source | as written | input that shows it | evidently intended | confidence | as-written member | corrected member |
|---|---|---|---|---|---|---|
| Gemini02.js:287-291 | `open_picker` passes the saved background path to the zero-argument slot `set_background_image(self)`, which raises `TypeError` after `new_picker` has emptied the scene (Gemini06.js:265-269 the same) | a file saved with `backgroundImage` naming an image that exists | the scene's `set_background_image(path)` shows the image and the items are read | not executed | Scene.OpenSavedWithBackgroundFails | Scene.OpenSavedIntended |
| Gemini08.js:290-307 | `clear_picker` runs before the dicts are read, so a dict missing a key ends the load with the buttons read so far and the old picker gone (GeminiPlus01.js:308-318 the same) | a file whose second button dict is `{}` | a file that cannot be read completely leaves the picker as it was | not executed | SizedFile.PartialLoadAfterBadRecord | SizedFile.CheckedLoadAgrees |
| GeminiPlus02.js:236-247 | without Shift, a selected button pressed with no drag in progress is toggled off while the others stay selected, so a press on a selected button never starts the group drag (GeminiPlus02.js:89) | two selected buttons, a press on the first without Shift | the selection is kept and the group drag starts | not executed | GeminiPlus02.PressOnSelectedExample | GeminiPlus02.IntendedPressDragsSelection |
| GeminiPlus06.js:303-312 | `load_picker` never reads the saved `position`, and without a background image no relative position is applied, so buttons come back at the origin | a button saved at (100, 100) with no background image | the button comes back where it was saved | not executed | GeminiPlus06.LoadDropsPosition | GeminiPlus06.DecodePlacedRoundTrip |
| Gemini02.js:61-71 | `mousePressEvent` calls `is_edit_mode` on `view.parent()`, but the view is laid out in the plain central widget (Gemini02.js:140-144, 208), which has no such method, so every press raises | Run mode, a press on an item whose node exists | the node is selected on the host, added under Shift | not executed | Gemini02.RunModePressRaises | Gemini02.RigPickerWindow.ButtonPressIntended |
