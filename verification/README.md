# bombercan in Dafny

A model of the logic under bombercan, a Bomberman clone written in Python 2
on top of a small home-made scene-graph framework, with proofs about it.
Drawing, sound and the GTK main loop are left aside; what remains is
modelled with immutable datatypes and pure functions:

- **pnode framework** (pnode.py, motions.py):
  - style resolution (`Style`);
  - the per-node action and animation timing (`Scheduler`, `Motions`);
  - tree links (`Links`);
  - tick order and the z-sorted paint list (`SceneTree`);
  - the edge-triggered key queries (`Keyboard`).
- **Tile-map container** (uicomponents.py `MapContainer`, and the earlier
  copy in containers.py):
  - cell lists, cell geometry, smooth moves and resize (`MapContainer`);
  - the earlier `add_node` (`EarlyMap`).
- **Stage rules** (stagescene.py, stagecontroller.py):
  - capability flags (`StageFlags`);
  - the map as the rules see it (`Grid`);
  - the stage state and its single-step rules: blocking, bombs, items and
    fire markers (`StageWorld`);
  - collision-clamped movement (`Movement`);
  - a character's direction queue (`Character`);
  - the four-arm explosion with chain reactions (`Explosion`);
  - the stage-string parser (`StageParse`);
  - the per-tick win/lose checks and the tracking floor (`StageStatus`).
  - `Selections` is the menu's up/down choice.
- **Earlier prototypes** (bomberman/):
  - the deferred-removal scheduler (`ProtoSched`);
  - the bomb countdown (`ProtoBomb`);
  - the stage grid, player cell and cell lighting (`ProtoStage`);
  - the tree walks (`ProtoTree`).

Nodes are opaque identities (`Nodes.NodeId`). Callbacks whose effect lies
outside the modelled state are appended to an event log. Pixel quantities
are `real`. Python's `int()` on a float is `Numeric.Trunc`, which truncates
toward zero. Python 2 `/` on two ints is floor division (`Numeric.FloorDiv`).
Where Python raises an exception, the model returns `None`.

## Model

| member | source | states |
|---|---|---|
| Style.KeyPrio | pnode.py:19-29 | a known key's priority is its index in the evaluation order width, height, left, top, right, bottom, aspect, align, vertical-align, z-index; every unknown key gets the one priority past the end |
| Style.KeyOfName | pnode.py:20-22 | the key names and the known keys correspond one to one |
| Style.ParseValue | pnode.py:31-47 | a number comes back unchanged; a stripped string ending in '%' becomes the truncated percentage of the reference size, or fails when float() rejects the digits; any other non-empty stripped string comes back as a word; an empty string fails (IndexError) |
| Style.ParsePercent | pnode.py:40-43 | "N%" with any leading whitespace gives int(rel * N / 100) |
| Style.PercentWithin | pnode.py:43 | a percentage between 0 and 100 of a non-negative size lies between 0 and that size |
| Style.Py2Min | pnode.py:88 | Python 2 `min` returns one of its arguments; on two numbers it is the smaller; a number is below a string |
| Style.ApplyAspect | pnode.py:85-93 | the result has the requested width/height ratio, and position and z are kept; ratio 1 takes the smaller of two numeric sides; above 1 it keeps the width; below 1 it keeps the height; it fails (TypeError) exactly when the side it must divide or multiply is a word |
| Style.AlignTo | pnode.py:94-100 | center leaves equal room on both sides, left puts x at 0, right puts the right edge on the parent's; any other value changes nothing; only x changes; it fails exactly when center or right meets a word width |
| Style.VAlignTo | pnode.py:101-107 | the vertical counterpart of AlignTo: center, top and bottom, only y changing, failing exactly when center or bottom meets a word height |
| Style.FromEdge | pnode.py:75-84 | with the size already set, the position moves and the size is kept; otherwise the size changes and the position is kept; either way position + size + margin equals the parent's extent; a word operand fails |
| Style.EvaluateDefaults | pnode.py:51-56 | a style with no known key gives x = y = z = 0 and the parent's width and height |
| Style.IgnoresUnknown | pnode.py:58-63 | unknown keys do not change the result: evaluating the style equals evaluating its known keys alone |
| Style.AlignCenter | pnode.py:61-109 | with align center, the evaluated box is horizontally centred in its parent, whatever the other keys are |
| Style.AspectHolds | pnode.py:61-109 | with an aspect key, the evaluated box has that ratio, because align, vertical-align and z-index never resize |
| Style.RightEdge | pnode.py:75-79 | with right and without aspect or align, the box's right edge sits at the right margin from the parent's edge |
| Style.ZIndexLast | pnode.py:108-109 | with a z-index key, the evaluated z is int() of its value |
| Style.KeywordLeftKept | pnode.py:71-72 | a keyword value for left is kept as the node's x, as a string |
| Style.KeywordLeftCentred | pnode.py:63-96 | a keyword left followed by align center evaluates to the defaults: centring overwrites the word with a number, so nothing raises |
| Scheduler.AddAction | pnode.py:264-289 | the named action becomes a fresh record (elapsed 0, not started); other actions, the dirty flag and animations are kept |
| Scheduler.RemoveAction | pnode.py:291-294 | the named action is gone and the others are kept; removing a missing name changes nothing |
| Scheduler.ResetActions | pnode.py:296-299 | no action is left and the dirty flag is cleared |
| Scheduler.RemoveAfterAdd | pnode.py:264-294 | adding then removing a name is the same as removing it |
| Scheduler.AddReplaces | pnode.py:280-289 | adding a name twice keeps only the second record |
| Scheduler.TickAction | pnode.py:535-553 | a waiting action only counts its delay down; a started action expires exactly when it does not loop and the interval takes it past its duration; otherwise it runs with elapsed wrapped by one duration, at phase elapsed/duration (0 for a zero duration) |
| Scheduler.TickInPeriod | pnode.py:540-553 | an action inside its period, ticked by at most one duration, stays inside it and runs at a phase between 0 and 1 |
| Scheduler.LoopKeepsRunning | pnode.py:540-550 | a started action never waits again, and a looping one never expires |
| Scheduler.NonLoopExpires | pnode.py:540-550 | a started non-looping action expires within any number of ticks that covers its remaining duration |
| Scheduler.DoTick | pnode.py:529-559 | every action is advanced; exactly the expired ones leave the table; a Perform event is recorded for each running action with its phase and a cleanup event for each expired action with a cleanup; the dirty flag is set exactly when an updating action ran |
| Scheduler.DoTickKeeps | pnode.py:533-550 | a looping or not yet started action survives the tick |
| Scheduler.FirstTickOnlyStarts | pnode.py:535-538 | the tick on which the delay runs out only starts the action, without performing it |
| Scheduler.IdleTick | pnode.py:529-534 | a node with no actions, no animations and a clean surface ticks to itself and triggers nothing |
| Scheduler.SetAnimation | pnode.py:309-338 | with pend the new animation joins the end of the queue; without pend it replaces the whole queue |
| Scheduler.StepAnim | pnode.py:423-449 | a waiting animation counts its delay down; a started non-looping one finishes when it passes its duration; otherwise it is drawn at phase elapsed/duration; a zero-duration animation that draws fails (ZeroDivisionError) |
| Scheduler.StepAnimInPeriod | pnode.py:433-444 | an animation inside its period, stepped by at most one duration, is drawn at a phase between 0 and 1 |
| Scheduler.ZeroDurationLoopFails | pnode.py:434-444 | a started looping animation of duration 0 always divides by zero |
| Scheduler.DoUpdate | pnode.py:487-500 | only the head of the animation queue is stepped, and a finished one is popped; a redraw is requested exactly when the node is dirty and no animation drew it; the actions are untouched |
| Scheduler.QueueBehindUntouched | pnode.py:423-442 | the animations queued behind the head are never changed by an update |
| Motions.LerpBetween | motions.py:43-47 | a linear phase between 0 and 1 gives a value between start and end |
| Motions.ScaleAt | motions.py:43-47 | the scale is start at phase 0 and end at phase 1 |
| Motions.AngleAt | motions.py:69-72 | the angle is start at phase 0 and end at phase 1 |
| Motions.Scale | motions.py:35-61 | an updating action named 'scale' with the given timing is registered, and the other actions' names are kept |
| Motions.Rotate | motions.py:65-75 | an updating action named 'rotate' with the given timing is registered, and the other actions' names are kept |
| Motions.ScaleAndRotate | motions.py:56-75 | scale and rotate do not replace each other: both actions are present, scale unchanged by rotate |
| Motions.ScaleReplaces | motions.py:56-61 | a second scale replaces the first |
| Links.AddNode | pnode.py:250-253 | the child is appended to the parent's children and its parent becomes that node; no other list or parent changes |
| Links.RemoveNode | pnode.py:255-258 | removing a non-child fails (ValueError); otherwise the first occurrence of the child is cut out of the children, the others keep their order, and the child's parent is cleared |
| Seqs.RemoveFirstOrder | pnode.py:257 | `list.remove(x)` cuts out the position of the first x and leaves the other elements in their order |
| Links.RemoveUndoesAdd | bomberman/pnode.py:27-33 | removing a child just added restores the children and clears its parent |
| Links.RemoveAbsentFails | pnode.py:255-258 | removing a child that is not there fails, and removing it after adding it succeeds |
| Links.AddTwiceRemoveOnce | bomberman/main.py:20-26 | a child added twice and removed once is still listed once, and its parent is cleared all the same |
| Links.AddKeepsOldParentList | pnode.py:250-253 | adding a node to a second parent leaves it in the first parent's list as well |
| SceneTree.TickOrder | pnode.py:561-568 | the loop visits the root, then its subtree level by level, and visits exactly the nodes of the pre-order, as often |
| SceneTree.LevelByLevel | pnode.py:563-568 | a breadth-first walk lists every node of one level before any child of that level |
| SceneTree.BfsPermutesPreOrder | pnode.py:561-568 | breadth-first order is a permutation of pre-order, so every parent ticks before its children and each node ticks once |
| SceneTree.CollectPaint | pnode.py:504-516 | the stack loop builds the paint list: depth-first pre-order with offsets summed along the path |
| SceneTree.PaintList | pnode.py:504-516 | there is one entry per node, and the root's z counts its own z-index twice |
| SceneTree.ChildZ | pnode.py:509-516 | a child's entry carries its ancestors' x, y and z added to its own |
| SceneTree.ItemIdsPreOrder | pnode.py:508-516 | the paint list's nodes are in depth-first pre-order |
| SceneTree.SortDesc | pnode.py:518-519 | the sort is a permutation into descending z |
| SceneTree.SortStable | pnode.py:518-519 | the sort is stable: entries of equal z keep their order |
| SceneTree.PaintOrder | pnode.py:504-523 | the painted entries are a permutation of the paint list, in descending z |
| SceneTree.PaintTiesPreOrder | pnode.py:518-523 | nodes of equal z are painted in pre-order |
| Keyboard.Press | pnode.py:659-666 | a key press adds the key to the live set, and the snapshot is untouched |
| Keyboard.Release | pnode.py:668-677 | a key release removes the key from the live set; releasing an unpressed key changes nothing |
| Keyboard.EndTick | pnode.py:650-651 | after a tick the snapshot equals the live set |
| Keyboard.UpDownExclusive | pnode.py:603-619 | key_up and key_down never both hold |
| Keyboard.NoEdgeAfterTick | pnode.py:603-651 | right after the snapshot neither edge holds |
| Keyboard.PressIsKeyUp | pnode.py:603-610 | key_up holds at the instant a key is pressed, against its docstring, and key_down does not |
| Keyboard.ReleaseIsKeyDown | pnode.py:612-619 | key_down holds at the instant a key is released, and key_up does not |
| Keyboard.TapBetweenTicks | pnode.py:659-677 | a press and release between two ticks leaves no edge and no trace |
| Keyboard.EdgeLastsOneTick | pnode.py:636-651 | a press is seen as an edge until the next tick only |
| Keyboard.OtherKeysIndependent | pnode.py:659-677 | pressing or releasing one key does not change another key's edges |
| Selections.SelectUp | uicomponents.py:424-427 | the selection moves up by one and wraps from the first label to the last; no label makes the modulo fail |
| Selections.SelectDown | uicomponents.py:429-432 | the selection moves down by one and wraps from the last label to the first |
| Selections.UpDownInverse | uicomponents.py:424-432 | up undoes down and down undoes up |
| Selections.DownTimesWrap | uicomponents.py:429-432 | within one round, k steps down from s land on s + k, less the number of labels once past the last |
| Selections.FullCycle | uicomponents.py:429-432 | as many steps down as there are labels come back to the start |
| MapContainer.Metrics | uicomponents.py:71-76 | the cell size is the largest whole size at which the grid fits both ways, and the padding centres the grid, taking the floor of half the spare room |
| MapContainer.New | uicomponents.py:43-75 | the model creates a container exactly when it has at least one cell each way and a positive cell size (the source builds more; see Left out); it starts with every cell list empty, no node tracked, and its cell size recorded as the original |
| MapContainer.CellPosSpacing | uicomponents.py:267-272 | cell (0, 0) sits at the padding; neighbouring cells are one cell size apart; the grid ends within one pixel of the far padding |
| MapContainer.GetCell | uicomponents.py:190-195 | a tracked node's cell is on the grid and its list holds the node; an untracked node fails (KeyError) |
| MapContainer.CellNodes | uicomponents.py:197-202 | a cell list holds exactly the nodes tracked at that cell |
| MapContainer.InCell | uicomponents.py:190-202 | a node is in a cell's list exactly when the cell table puts it there: the container's invariant |
| MapContainer.GetNodePos | uicomponents.py:274-277 | the node's position without delta, plus its delta, is its box position |
| MapContainer.NewEntry | uicomponents.py:161-168 | add_node records the delta and size divided by the scale ratio, so the originals times the ratio give back the values as added |
| MapContainer.AddNode | uicomponents.py:150-173 | the node is appended to its cell's list and tracked there; no other list changes; the invariant is kept |
| MapContainer.AddNodePlaces | uicomponents.py:150-173 | the added node sits at its cell's position with the given delta and size, and its z-index is the given z minus the row |
| MapContainer.RemoveNode | uicomponents.py:175-188 | the node's first occurrence leaves its cell's list and every table drops it; other lists are kept; get_cell on it fails afterwards |
| MapContainer.RemoveNodeGone | uicomponents.py:175-188 | after removal the node is in no cell list |
| MapContainer.MoveTo | uicomponents.py:204-219 | the node leaves its old cell's list and is appended to the target's; its cell and anchor are the target's; its z is the original z minus the new row |
| MapContainer.ClampOnce | uicomponents.py:239-247 | the clamp enforces at most one bound per call, the x bounds before the y bounds |
| MapContainer.Restrict | uicomponents.py:90-107 | a cell index is clamped into the grid and kept when already inside |
| MapContainer.AxisIndexNearest | uicomponents.py:249-254 | the cell index on an axis is the cell whose half-cell neighbourhood holds the position |
| MapContainer.AxisIndexStep | uicomponents.py:250-254 | one cell size further on gives the next index |
| MapContainer.AxisIndexUnique | uicomponents.py:250-254 | any k whose half-shifted cell holds the offset is the index the rounding gives |
| MapContainer.PosCell | uicomponents.py:249-255 | the cell computed from a position is always on the grid |
| MapContainer.PosCellAtCell | uicomponents.py:249-255 | a cell's own position maps back to that cell |
| MapContainer.MovePos | uicomponents.py:221-265 | the node is placed at the clamped target position and moved to the cell that position rounds to; it is re-appended to that cell's list even when the cell does not change |
| MapContainer.MovePosStaysInOneCell | uicomponents.py:256-261 | after a smooth move the node is in exactly one cell list, the one its table entry names |
| MapContainer.MovePosOthers | uicomponents.py:256-261 | a smooth move changes no cell list besides the old and new cells |
| MapContainer.MovePosOneCellRight | uicomponents.py:221-261 | a move by one cell size from a cell's position lands in the next cell, and a zero move stays |
| MapContainer.OnResize | uicomponents.py:120-144 | cell lists and tracked nodes are kept; every node is re-anchored at its cell's new position with delta and size equal to the originals times the new scale ratio |
| MapContainer.ResizeKeepsAnchors | uicomponents.py:131-144 | after a resize every node is still in its cell, anchored at that cell's new position |
| MapContainer.RescaleNewEntry | uicomponents.py:137-167 | rescaling a fresh entry at the ratio it was added at gives back the delta and size it was added with |
| MapContainer.AddThenResizeSameCell | uicomponents.py:129-168 | a resize that keeps the cell size leaves a node added after earlier resizes at the delta and size it was added with |
| EarlyMap.EarlyEntry | containers.py:85-92 | containers.py records the originals as given, not divided by the scale ratio |
| EarlyMap.AddNode | containers.py:85-95 | the node is appended to its cell and anchored at the cell's position; the container's invariant is kept |
| EarlyMap.AddNodeAgreesUnscaled | containers.py:85-95 | before any resize changed the cell size, the earlier add_node agrees with the later one |
| EarlyMap.RescaleEarlyEntry | containers.py:63-80 | a resize scales such an entry's delta and size by the current ratio |
| EarlyMap.AddThenResizeMisScales | containers.py:85-92 | at a doubled cell size, a node added and then resized to the same size comes out twice too large |
| EarlyMap.DoubledReachable | containers.py:29-34 | a map can be resized to a doubled cell size |
| StageFlags.SingleBit | stagecontroller.py:17-28 | each flag is a non-zero single bit at its own position |
| StageFlags.BitsDisjoint | stagecontroller.py:17-28 | two different flags share no bit |
| StageFlags.StageObj | stagecontroller.py:30-42 | the flag is ORed in: the node gains it and keeps its other flags; other nodes are untouched |
| StageFlags.Fresh | stagecontroller.py:30-42 | a created node has exactly the given flags, and no other node's flags change |
| StageFlags.QuerySideEffectHarmless | stagecontroller.py:44-54 | a query on a never-flagged node reports no flag, and its side effect does not change what a later stageobj gives |
| Grid.Add | uicomponents.py:150-166 | the node is appended to the cell's list and tracked there; every other list is kept |
| Grid.Remove | uicomponents.py:175-188 | the node is no longer tracked and the map keeps its size |
| Grid.RemoveCells | uicomponents.py:181-183 | only the node's own cell loses one occurrence of it; every other list is kept |
| Grid.AddKeepsConsistent | uicomponents.py:150-166 | adding a new node keeps every list entry tracked at its cell and every tracked node listed once |
| Grid.RemoveKeepsConsistent | uicomponents.py:175-188 | removing a tracked node keeps that invariant, and the node is in no list afterwards |
| Grid.AddThenRemove | uicomponents.py:150-188 | removing a node just added restores the map |
| StageWorld.PutFire | stagescene.py:806-818 | a fire marker with only the FIRE flag joins the cell, with a cleanup action 'die' delayed by FIRE_LASTING; the map stays sound |
| StageWorld.GameLose | stagescene.py:514-520 | the game is lost, the player's actions and animations are reset and the message is logged |
| StageWorld.GameWin | stagescene.py:508-512 | the game is won and the message is logged |
| StageWorld.PutItem | stagescene.py:715-749 | a breakable item node of the given kind joins the cell |
| StageWorld.ItemFor | stagescene.py:751-757 | a draw in 4..6 gives a fire item and one in 7..9 a bomb item |
| StageWorld.PutItemRandom | stagescene.py:751-757 | one draw is consumed, and the item it selects, if any, is put without touching enemies or the game state |
| StageWorld.Feed | stagescene.py:724-745 | a fire item adds one to the eater's bomb power and a bomb item one to its bomb count; nothing else changes |
| StageWorld.Eat | stagecontroller.py:387-403 | the eater is fed by the item's kind, the item leaves the map, no cell list grows, and the fly-away is logged |
| StageWorld.EatFollows | stagecontroller.py:387-403 | eating keeps every stage invariant (Follows), map soundness included |
| StageWorld.PutBomb | stagescene.py:676-713 | put_bomb refuses, changing nothing, exactly when the cell holds a bomb; otherwise exactly one node flagged BLOCK, BREAKABLE and BOMB joins the cell, with its fuse and a hook that counts the bomber down and explodes at the cell |
| StageWorld.PutBombSound | stagescene.py:676-713 | putting a bomb keeps the map sound |
| StageWorld.DropBomb | stagecontroller.py:208-216 | at the limit nothing happens; below it the bomber's count goes up by one before the bomb is put, on_bomb is logged, and a bomb that is put carries the bomber's delay as its fuse and the bomber's power in its detonation |
| StageWorld.RefusedBombStillCounted | stagecontroller.py:208-216 | when put_bomb refuses, the count still went up and no bomb was added |
| StageWorld.DropBombSound | stagecontroller.py:208-216 | bomb() keeps the map sound |
| StageWorld.FuseTick | stagecontroller.py:358-361 | the fuse burns down by the interval, and the bomb goes off exactly when the fuse drops below zero |
| StageWorld.FuseKeepsFiring | stagecontroller.py:358-361 | a fuse that went off goes off again on every later tick |
| StageWorld.IsBlocked | stagescene.py:603-606 | a cell outside the map is always blocked |
| StageWorld.IsBlockedIff | stagescene.py:608-624 | inside the map, a cell is blocked exactly when some occupant survives the skip rules (a bomb-eater skips bombs, a flyer skips non-bombs) and is a block or on the mover's side |
| StageWorld.BlockedFromIff | stagescene.py:609-624 | the loop finds a blocking occupant exactly when one exists at or after its start |
| StageWorld.FlyerBlockedOnlyByBombs | stagescene.py:613-616 | a flyer that is no bomb-eater is not blocked by a cell without bombs |
| StageWorld.IsFilled | stagescene.py:583-593 | a cell is filled exactly when it is on the map and holds more than one node |
| Movement.Collide | stagescene.py:652-665 | a blocked direction clamps the delta so it never passes the cell origin; an unblocked one keeps it |
| Movement.Adjust | stagescene.py:638-672 | a zero request does nothing; a blocked side clamps the delta toward the cell origin; an unblocked side keeps it; a zero axis snaps to the origin unless the other axis was blocked |
| Movement.MoveObject | stagescene.py:626-674 | a zero request changes nothing; otherwise the stage's map tracks the mover at the cell the container moved it to, and nothing else in the stage changes |
| Movement.MoveObjectMirrors | stagescene.py:626-674 | the stage's cell lists and the container's stay the same list for every cell through a move |
| Movement.MoveObjectSound | stagescene.py:626-674 | a move keeps the map sound |
| Movement.MoveObjectCell | uicomponents.py:249-255 | after a move the mover's cell is the one its new position rounds to |
| Movement.BlockedSideHolds | stagescene.py:652-665 | when the neighbour cell in the direction of travel is blocked, the mover's new position does not pass its old cell's origin on that axis, and its cell does not advance, for any delta |
| Movement.FreeHorizontalMoveSnaps | stagescene.py:667-672 | a horizontal move towards a free side puts the mover at its cell's row height and, while the target stays inside the grid, exactly dx further along |
| Character.Make | stagecontroller.py:126-139 | a new character has an empty direction queue, the given speed and its timing as it was |
| Character.Move | stagecontroller.py:156-162 | the direction heads the queue, one earlier entry of it dropped and the rest kept; the looping 'move' action is registered and no other action name changes; on_move is called when given |
| Character.MoveOnce | stagecontroller.py:156-162 | after move(d) the direction is at the head, listed once, and the other directions are unchanged |
| Character.Stop | stagecontroller.py:164-181 | stopping the head pops it and resumes the new head or removes 'move'; stopping another listed direction drops it silently; stopping anything else resets every action and calls on_stop for all four directions |
| Character.StopDistinct | stagecontroller.py:164-174 | stopping keeps the queue free of repeats |
| Character.StopQueue | stagecontroller.py:164-174 | stop(d) leaves exactly the other directions queued |
| Character.PressRelease | stagecontroller.py:156-174 | move(d) then stop(d) leaves d out of the queue, the rest as it was |
| Character.PressReleaseRestores | stagecontroller.py:156-172 | for a direction not queued, move then stop restores the queue, and 'move' is gone exactly when the queue is empty |
| Character.Steer | stagescene.py:527-537 | the arrow keys: every press first, then every release, in the source's key order; the speed is kept |
| Character.SteerQueue | stagescene.py:529-537 | after the arrow keys, the queue holds exactly the directions that were queued or pressed and not released, each once |
| Character.SteerHead | stagescene.py:529-532 | of several arrows pressed at once, the last in the order Left, Up, Right, Down leads |
| Character.PressAllQueue | stagescene.py:529-532 | the presses add exactly the pressed directions, each once |
| Character.ReleaseAllQueue | stagescene.py:534-537 | the releases remove exactly the released directions |
| Character.Step | stagecontroller.py:141-154 | an empty queue does not move; otherwise the step runs along one axis only, by interval * speed * cell size: up and down change only y, left and right only x, up and left towards smaller coordinates |
| Character.StepHeadOnly | stagecontroller.py:141-154 | only the head of the queue decides the step |
| Character.StepOneAxis | stagecontroller.py:145-154 | a step moves along one axis only, by exactly the stride |
| Character.Walk | stagecontroller.py:141-154 | one move_action call: an empty queue changes nothing; otherwise only the stage's map changes, and the tile map stays valid with the same nodes |
| Character.WalkSound | stagescene.py:626-674 | walking keeps the map sound |
| Character.WalkMirrors | stagescene.py:626-674 | walking keeps the stage's cell lists equal to the container's |
| Character.WalkBlocked | stagescene.py:653-655 | walking right into a blocked cell never passes the cell's origin |
| Explosion.SpanIsRange | stagescene.py:825-855 | that number is the length of the source's four xrange calls |
| Explosion.ArmInMap | stagescene.py:824-862 | from a bomb on the map, an arm covers exactly the cells that are on the map and at most power cells away |
| Explosion.CountDown | stagescene.py:702-704 | the bomber's bomb count goes down by one and nothing else changes |
| Explosion.Die | stagecontroller.py:80-82 | armed bombs and item-dropping blocks on the map never grow through a death and what it sets off; this measure ends chain reactions |
| Explosion.DieTakesOff | stagecontroller.py:80-82 | a node that dies is off the map afterwards, whatever its on_die set off |
| Explosion.Blow | stagescene.py:702-704 | a bomb's death never grows the measure |
| Explosion.BlowTakesOff | stagescene.py:702-704 | a bomb that dies is off the map after its explosion |
| Explosion.GoDie | stagecontroller.py:183-188 | go_die never grows the measure |
| Explosion.GoDieMarks | stagecontroller.py:183-188 | go_die sets DEAD first; with on_go_die the map is left as it is and the dying animation is logged |
| Explosion.Hit | stagescene.py:780-802 | one node of _search_and_break never grows the measure |
| Explosion.HitSpares | stagescene.py:780-788 | the player loses and the arm goes on; a fire-blocking node stops the arm short of its cell and stays; a node no rule applies to is only shaken |
| Explosion.HitBreaks | stagescene.py:789-802 | a bomb leaves the map and the arm goes on; a breakable that is no live character leaves the map and stops the arm at its cell |
| Explosion.HitStrikes | stagescene.py:794-796 | a live character that is no bomb is flagged dead and the arm goes on |
| Explosion.HitStrikesEnemy | stagescene.py:794-798 | a live enemy the fire reaches leaves the enemy list once |
| Explosion.Scan | stagescene.py:775-804 | the scan never grows the measure; it ends with (False, 0), or stops with an adjustment of -1 or 0 |
| Explosion.ScanCalm | stagescene.py:780-804 | a cell no rule acts on is only shaken and does not stop the arm |
| Explosion.Visit | stagescene.py:826-828 | after a visit the cell's last node is a fire marker, whether or not the arm stopped there |
| Explosion.Arm | stagescene.py:824-832 | an arm's fire length lies between its start index less one and its last cell's index |
| Explosion.ArmCalm | stagescene.py:824-832 | an arm over calm cells runs to its last cell |
| Explosion.Burn | stagescene.py:824-862 | the arms burn in turn, never growing the measure, and give one fire length per arm |
| Explosion.BurnLengths | stagescene.py:824-862 | each arm's fire length is 0 for an arm without cells, and otherwise between -1 and its cell count less one |
| Explosion.Effect | stagescene.py:864-879 | the effect is a flagless node at the bomb's cell, logged with the four fire lengths |
| Explosion.Explode | stagescene.py:759-885 | an explosion never grows the measure |
| Explosion.ExplodeFollows | stagescene.py:759-885 | an explosion keeps every stage invariant, map soundness included |
| Explosion.ExplodeLogs | stagescene.py:864-879 | the effect comes last, at the bomb's cell, and each fire length is within its arm's bounds |
| Explosion.ExplodeCalm | stagescene.py:824-879 | on a calm map every arm reaches min(power, room to the edge) |
| StageStatus.PlayerFrom | stagescene.py:550-561 | the player scan only eats items and may lose the game: flags, enemies and the win flag are kept, and no node joins the cell |
| StageStatus.PlayerFromLoses | stagescene.py:552-558 | an enemy or fire node in the player's cell before any item loses the game |
| StageStatus.PlayerFromLosesOnlyIf | stagescene.py:552-558 | the game is lost only if it was lost before or the cell holds an enemy or fire node |
| StageStatus.PlayerCheck | stagescene.py:549-561 | a finished game is left alone; a player off the map fails (KeyError); otherwise flags, enemies and the win flag are kept |
| StageStatus.Swallow | stagescene.py:573-577 | a bomb-eater's bomb leaves the map and its bomber is counted down |
| StageStatus.Defeat | stagescene.py:568-572 | the enemy is flagged dead and leaves the enemy list |
| StageStatus.EnemyFrom | stagescene.py:565-577 | an enemy dies exactly when a live fire node shares its cell; then it is flagged dead and leaves the list, and otherwise flags and enemies are kept |
| StageStatus.EnemyFromDiesIff | stagescene.py:567-572 | for an enemy that is no bomb-eater, it dies exactly when a live fire node is in its cell |
| StageStatus.EnemiesAliased | stagescene.py:564-572 | the enemy loop over the aliased list keeps every stage invariant |
| StageStatus.EnemiesSnapshot | stagescene.py:564-572 | the enemy loop over a copy of the list keeps every stage invariant |
| StageStatus.WinCheck | stagescene.py:579-581 | the game is won exactly when it was won or no enemy is left; game_win is logged only when the stage was not won yet; otherwise nothing changes |
| StageStatus.StatusAsWritten | stagescene.py:549-581 | the checks as written (the enemy pass over the live list): the stage is won exactly when it was won or no enemy is left, a lost game stays lost, and enemies only leave the list |
| StageStatus.Status | stagescene.py:549-581 | the corrected checks (the enemy pass over a copy of the list): the stage is won exactly when it was won or no enemy is left, a lost game stays lost, and enemies only leave the list |
| StageStatus.AllInFireWins | stagescene.py:563-581 | for the corrected checks: when every listed enemy stands in fire, the status step wins (the checks as written do not; see StageStatus.AliasedSkipsEnemy) |
| StageStatus.SnapshotClears | stagescene.py:564-572 | over a copy of the list, every enemy standing in fire leaves it |
| StageStatus.AliasedSkipsEnemy | stagescene.py:564-572 | as written, two enemies in one fire: the second is skipped, stays alive and listed, and the game is not won |
| StageStatus.SnapshotKillsBoth | stagescene.py:564-572 | over a copy, the same two enemies both die and the game is won |
| StageStatus.FloorTick | stagecontroller.py:323-332 | on_enter fires exactly when the player arrives on the floor's cell and on_leave exactly when it leaves; the player off the map fails |
| StageStatus.FloorStep | stagecontroller.py:323-332 | the floor's state becomes whether the player is on its cell, and a callback fires exactly when that state changes, on_enter only on arrival |
| StageStatus.FloorCallsAlternate | stagecontroller.py:323-332 | on_enter and on_leave alternate, starting with the one the floor's state calls for |
| StageStatus.FloorMirrorsPlayer | stagecontroller.py:326-332 | after any path, entered says whether the player stands on the floor's cell |
| StageParse.StripTrims | stagescene.py:452 | strip removes exactly the leading and trailing whitespace |
| StageParse.LinesJoin | stagescene.py:453 | the lines hold no newline and joined back give the text |
| StageParse.JoinLines | stagescene.py:453 | splitting joined lines gives the lines back |
| StageParse.ScanRow | stagescene.py:455-478 | a row that ends before the map's width fails (IndexError); otherwise its pieces are exactly the recognised characters, left to right |
| StageParse.ScanRowsSpec | stagescene.py:454-478 | the scan fails exactly when some row is missing or short; otherwise it yields exactly the recognised characters of the map's rectangle |
| StageParse.FlagsOf | stagescene.py:80-334 | each piece gets the creator's flags: enemies ENEMY, the player PLAYER, blocks BLOCK, hard blocks FIRE_BLOCKING, B BOMB_EATER, C FLYING |
| StageParse.Load | stagescene.py:448-481 | the pieces get consecutive new identities |
| StageParse.LoadEnemies | stagescene.py:465-476 | each enemy letter appends exactly its own node to the enemy list, in scan order |
| StageParse.LoadPlaces | stagescene.py:454-481 | every piece but a dummy ends up on the map at its cell, and dummies are gone |
| StageParse.LoadFlags | stagescene.py:80-334 | every created node has exactly its piece's flags |
| StageParse.LoadHooks | stagescene.py:80-334 | soft blocks drop an item when they die and the player loses the game, and no other piece has such a hook |
| StageParse.LoadPlayer | stagescene.py:459-460 | the last '@' becomes the player |
| StageParse.LoadKeepsFlags | stagescene.py:454-481 | nodes from before keep their flags |
| StageParse.LoadedEnemiesFlagged | stagescene.py:465-476 | every listed enemy is enemy-flagged after a load, if it was before |
| StageParse.LoadSound | stagescene.py:454-481 | loading keeps the map sound |
| StageParse.ClearDummies | stagescene.py:372-377 | exactly the dummies leave the map, and everything else stays where it was |
| StageParse.ParseAsWritten | stagescene.py:431-481 | as written, parse succeeds only when the stage string has a '.' |
| StageParse.Parse | stagescene.py:431-481 | parse fails exactly when the layout does (a missing or short row) |
| StageParse.ParseAsWrittenNeedsDummy | stagescene.py:367-377 | as written, parse fails exactly when the layout fails or has no dummy |
| StageParse.ParseAsWrittenAgrees | stagescene.py:372-377 | wherever the as-written parse succeeds, it agrees with the corrected one |
| StageParse.NoDummyCrashes | stagescene.py:372-374 | the stage "x@" fails as written, and loads with its player under the corrected parse |
| StageParse.NoDummyRefused | stagescene.py:372-374 | as written, the 2 by 1 stage "x@" fails |
| StageParse.NoDummyLoads | stagescene.py:448-481 | with the dummy list started empty, "x@" loads, and its '@' becomes the player |
| ProtoSched.AddAction | bomberman/pnode.py:35-41 | the named action becomes a fresh record and nothing else changes |
| ProtoSched.RemoveAction | bomberman/pnode.py:43-45 | removal only queues a name that is present; the table is untouched |
| ProtoSched.FlushActions | bomberman/pnode.py:47-51 | exactly the queued names leave the table and the queue is emptied |
| ProtoSched.AddAnimation | bomberman/pnode.py:53-62 | the named animation becomes a fresh record: not started, not done, elapsed 0 |
| ProtoSched.RemoveAnimation | bomberman/pnode.py:64-66 | removal only queues a name that is present |
| ProtoSched.FlushAnimations | bomberman/pnode.py:68-72 | exactly the queued names leave the table |
| ProtoSched.RemoveThenFlush | bomberman/pnode.py:43-51 | a removed action stays until the flush and is gone after it |
| ProtoSched.ReAddWhilePendingIsLost | bomberman/pnode.py:35-51 | an action re-added while its removal is pending is still deleted at the flush |
| ProtoSched.ReAddAnimationWhilePendingIsLost | bomberman/pnode.py:53-72 | the same holds for animations |
| ProtoSched.UpdateAnim | bomberman/pnode.py:94-118 | a done animation is queued for removal; the callback gets elapsed/period exactly when started; a zero period fails (ZeroDivisionError); a finished non-looping animation ends at elapsed = period |
| ProtoSched.LastPhaseIsOne | bomberman/pnode.py:108-118 | a non-looping animation's last phase is exactly 1.0 |
| ProtoSched.DoneIsRemovedNext | bomberman/pnode.py:95-98 | a done animation is queued for removal on its next update |
| ProtoSched.StartPhaseZero | bomberman/pnode.py:100-104 | the update on which the delay runs out calls back at phase 0 |
| ProtoSched.PhaseInUnit | bomberman/pnode.py:105-118 | within its period, an animation is called back at a phase between 0 and 1 |
| ProtoSched.AnimateNode | bomberman/pnode.py:127-134 | every animation is updated, done ones and queued names are deleted, and the callbacks are recorded |
| ProtoSched.UpdateNode | bomberman/pnode.py:122-140 | an animated node with no animation left redraws; one with animations animates; otherwise it redraws only for an updating action |
| ProtoSched.AnimatedRedrawsForever | bomberman/pnode.py:124-126 | once animated, a node with no animations redraws on every paint |
| ProtoSched.TickAsWritten | bomberman/pnode.py:149-164 | as written, the tick fails (TypeError) exactly when a spent one-shot action is present; otherwise every action is called and marked done |
| ProtoSched.Tick | bomberman/pnode.py:149-164 | with the removal working, spent one-shot actions leave the table and every other action is called and marked done |
| ProtoSched.OneShotCrashesSecondTick | bomberman/pnode.py:156-161 | as written, a one-shot action runs on the first tick and the second tick fails |
| ProtoSched.OneShotRunsOnce | bomberman/pnode.py:156-164 | corrected, a one-shot action runs once and is then gone |
| ProtoSched.LoopRunsEveryTick | bomberman/pnode.py:156-161 | a looping action runs on every tick |
| ProtoBomb.NewBomb | bomberman/objects.py:17-22 | the fuse is stored as given, the power truncated, endless only when the option says so, not counting |
| ProtoBomb.StartCounting | bomberman/objects.py:72-80 | counting starts with a looping 'count' animation of period 1.5 |
| ProtoBomb.OnTick | bomberman/objects.py:65-70 | only a counting, non-endless bomb burns; when the fuse drops below zero it stops counting and calls explode, then destroy |
| ProtoBomb.IdleBombInert | bomberman/objects.py:65-67 | a bomb that is not counting never changes |
| ProtoBomb.EndlessNeverExplodes | bomberman/objects.py:65-66 | an endless bomb never changes |
| ProtoBomb.ExplodesAtMostOnce | bomberman/objects.py:68-84 | over any run of ticks a bomb explodes at most once, and destroy follows each explode |
| ProtoBomb.LongEnoughExplodes | bomberman/objects.py:65-70 | a counting bomb explodes once the intervals add up past its fuse |
| ProtoStage.StageMetrics | bomberman/bomberman.py:176-182 | the cell size fits both ways within the margins; no cell on either axis fails (ZeroDivisionError) |
| ProtoStage.MetricsFit | bomberman/bomberman.py:176-182 | the cell size is the largest that fits, and the grid is centred |
| ProtoStage.CellsAbut | bomberman/bomberman.py:184-185 | neighbouring cells are one cell size apart |
| ProtoStage.CellsInsideStage | bomberman/bomberman.py:176-185 | with non-negative margins every cell lies inside the stage |
| ProtoStage.PlayerCell | bomberman/bomberman.py:32-35 | the player's cell is computed with int() truncation, and a zero cell size fails |
| ProtoStage.StandingOnCell | bomberman/bomberman.py:32-35 | a two-cell-tall player within half a cell of a cell's spot is on that cell |
| ProtoStage.LeftOfGridIsColumnZero | bomberman/bomberman.py:32-35 | because int() truncates, up to a cell left of the grid still counts as column 0 |
| ProtoStage.MoveStep | bomberman/bomberman.py:38-46 | up and down move only y, left and right only x, and any other name does not move |
| ProtoStage.Move | bomberman/bomberman.py:37-52 | move registers a looping, non-updating action named after the direction |
| ProtoStage.Stop | bomberman/bomberman.py:54-59 | stop(dir) queues only that action for removal; stop() or an empty name queues all four directions that are present; the table is untouched until the flush |
| ProtoStage.StopEndsAllMoves | bomberman/bomberman.py:54-59 | after stop() and the flush no direction action is left, and other actions stay |
| ProtoStage.MoveThenStop | bomberman/bomberman.py:37-59 | move then stop of the same direction leaves no such action after the flush |
| ProtoStage.CellTick | bomberman/bomberman.py:87-118 | the cell is lit exactly while the player stands on it; light(True) starts a looping blink; light(False) removes it and starts a one-shot fade |
| ProtoStage.LightCallsAlternate | bomberman/bomberman.py:87-93 | light(True) and light(False) alternate, starting with the opposite of the current state |
| ProtoStage.NeverVisitedNeverLit | bomberman/bomberman.py:87-93 | a cell the player never reaches never lights |
| ProtoStage.OnResize | bomberman/bomberman.py:207-222 | the metrics are recomputed for the new size and the characters kept; it fails exactly when a cell count or the old cell size is zero |
| ProtoStage.ResizedAt | bomberman/bomberman.py:218-222 | each character's offset from the grid corner is scaled by new/old cell size |
| ProtoStage.ResizeKeepsGridPoint | bomberman/bomberman.py:207-222 | a character on a grid point stays on the same grid point |
| ProtoStage.ResizeKeepsPlayerCell | bomberman/bomberman.py:207-222 | a player standing on a cell still stands on it after a resize |
| ProtoStage.MainCellBox | bomberman/main.py:123-132 | placing a cell fails exactly when a cell count is zero |
| ProtoStage.MainResizeTiles | bomberman/main.py:141-148 | after Stage.on_resize the cells are square, abut and lie inside the stage |
| ProtoTree.ProtoPaint | bomberman/pnode.py:120-147 | the queue loop paints breadth-first, each node once, with offsets summed along its ancestors |
| ProtoTree.BfsItemIds | bomberman/pnode.py:120-147 | the painted nodes come in breadth-first order |
| ProtoTree.BfsPaintsStackItems | bomberman/pnode.py:120-147 | breadth-first painting paints the same nodes at the same offsets as a depth-first walk |
| ProtoTree.MainVisitFilters | bomberman/main.py:39-57 | the recursive walks call the hook of exactly the enabled nodes, in pre-order |
| ProtoTree.DisabledStillDescends | bomberman/main.py:52-57 | a disabled node still has its children visited |
| ProtoTree.AllEnabledVisitsPreOrder | bomberman/main.py:39-57 | with every node enabled the walk is plain pre-order |

## Left out

- Drawing is not modelled: cairo and pango surfaces, every `on_update` body, `Label` and `MessageBox`, and objects.py and effects.py. These hold no game logic.
- Sound is not modelled: `audio.play` calls are dropped. The player runs on its own thread.
- The GTK main loop is not modelled: `Game.run`, `do_expose`, `do_resize`, and the timing part of `do_timeout`. The interval is a parameter. Only the keymap snapshot at pnode.py:651 is modelled, as `Keyboard.EndTick`.
- `print_fps` and printfps.py are not modelled. They depend on the clock and stdout.
- Scene wiring and menus are not modelled: bombercan.py, bomberman.py, menuscene.py and endscene.py. The same holds for the scene callbacks `on_game_win` and `on_game_reset` (stagescene.py:542-543).
- Random generation is not modelled: `create_enemies`, `create_soft_blocks`, `generate`, and the enemy AI (stagecontroller.py:221-306). They depend on `random()`.
- `do_resize_recursive` (pnode.py:570-577) is not modelled. It re-runs each node's style evaluation, which `Style` covers.
- The 'z' key (stagescene.py:539) is not part of `Character.Steer`. The bomb drop itself is `StageWorld.DropBomb`.
- The prototype's key dispatch in `Bomberman.on_tick` (bomberman/bomberman.py:254-276) is not modelled. Only the `move` and `stop` it calls are.
- The containers.py methods other than `add_node` (`remove_node`, `move_to`, `move_pos`, `on_resize`, cell geometry, containers.py:63-160) are line for line those of uicomponents.py. `MapContainer` models them once.
- Callbacks are recorded, not run, when their effect lies outside the modelled state (`StageWorld.Event`, `Character` calls, `Scheduler` and `ProtoSched` events). Examples: `on_move`, `on_stop`, `on_bomb`, `on_go_die`'s animation, the messages, the explosion picture, and the item's fly-away.
- No stage-wide tick drives the per-node timings. The fire markers' timed removal, and the dying animation that later takes a dead enemy off the map, are only registered.
- `StageWorld.PutItemRandom`: the draws `int(random() * 10)` come from the stage's `draws` sequence, and a draw of 0 is used once it runs out.
- `Explosion.Scan`: the cell lists are scanned live, the way CPython's list iterator reads a list a `die()` shrinks. They are not scanned over a snapshot. A node right behind one that dies is therefore not examined.
- `Explosion.Hit`: an enemy missing from `enemies` is left alone. `self.enemies.remove(n)` raises ValueError there (stagescene.py:798).
- `StageStatus.Defeat`: the same applies to an enemy missing from `enemies`, where `self.enemies.remove(e)` raises ValueError (stagescene.py:571). The invariant that would exclude both cases is not proved: that every live enemy-flagged node is listed.
- `Seqs.RemoveFirst`: removing an absent element leaves the sequence unchanged, where `list.remove` raises ValueError.
- `MapContainer.New`: refuses some containers the source builds. The source raises at construction only for a zero cell count (ZeroDivisionError at uicomponents.py:72-73). A negative count constructs an empty grid. A cell size that is not positive at construction also constructs; the first `add_node` or `on_resize` then divides by it (uicomponents.py:129, :161). The model's container invariant assumes a positive cell size and at least one cell each way, so these containers are not modelled.
- `Grid.Remove`: an untracked node leaves the board unchanged, where `remove_node` raises KeyError. `StageWorld.Sound` (consistent map, every tracked node older than the next identity) is proved to be kept by every stage rule, so the rules only remove nodes found in cell lists.
- `StageParse.Parse`: loads into the stage it is given, rather than building a fresh map (`create_map`, `create_floor`) and emptying `enemies` (stagescene.py:448-450). In the fresh scene every parse runs on (bombercan.py:72-86), the two agree when the given stage's map is floored and its enemy list is empty.
- `Style.EvaluateStyle`: parent sizes are reals. `int()` of a percentage truncates toward zero. `float()` accepts decimal text only, without exponents, `inf` or `nan`.
- `MapContainer.Metrics`: the width, height and cell size are integers, as in the source, so `/` is floor division. Node positions and sizes are reals.
- `Keyboard`: keys are opaque values. The GTK mapping from key names to key values is left out.

## Findings

| source | as written | input that shows it | evidently intended | confidence | as-written member | corrected member |
|---|---|---|---|---|---|---|
| stagescene.py:564-572 | `tmp = self.enemies` aliases the list, so `self.enemies.remove(e)` inside the loop shifts the next enemy into the slot just handled, and that enemy is skipped | two enemies in one cell with a live fire node: the first dies, the second stays alive and listed, and the game is not won that tick | iterate over a copy (`tmp = self.enemies[:]`), so every enemy standing in fire dies | not executed | StageStatus.EnemiesAliased, StageStatus.AliasedSkipsEnemy | StageStatus.EnemiesSnapshot, StageStatus.SnapshotKillsBoth, StageStatus.Status, StageStatus.AllInFireWins |
| stagescene.py:368-377 | only `create_dummy_obj_at` creates `self.dummies`, and `clear_dummy_obj` (line 481) reads it; a stage string without '.' parses on a fresh scene (bombercan.py:72-86) | the 2 by 1 stage "x@": `self.dummies` does not exist and parse raises AttributeError | start each parse with `self.dummies = []` | not executed | StageParse.ParseAsWritten, StageParse.NoDummyRefused | StageParse.Parse, StageParse.NoDummyLoads |
| containers.py:85-92 | the earlier `add_node` stores the delta and size as given, while `on_resize` multiplies the stored originals by new/initial cell size | after one resize that doubled the cell size, a node added and then resized at the same size comes out twice as large, with twice its delta | store the originals divided by the current ratio, as uicomponents.py:161-167 does | not executed | EarlyMap.AddThenResizeMisScales | MapContainer.AddThenResizeSameCell |
| bomberman/pnode.py:158 | `current.remove_action[name]` subscripts the method instead of calling it | a non-looping action: the first tick runs it and marks it done; the second tick raises TypeError | `current.remove_action(name)` | not executed | ProtoSched.TickAsWritten, ProtoSched.OneShotCrashesSecondTick | ProtoSched.Tick, ProtoSched.OneShotRunsOnce |
