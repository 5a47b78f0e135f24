# Verified models of SC8830Pkg drivers

This project models, in Dafny 4.11, the parts of the SC8830Pkg UEFI drivers that keep state
or do arithmetic, and proves what they promise.

- **Console splitter, text side** (`TextModes`, `TextModeIntersection`, `ModeMapMemory`,
  `ConSplitterTextOut`). One virtual text console stands for all attached ones and publishes
  the modes they have in common. `TextModes` defines the mode table as a value and what its
  entries mean, whatever the consoles report; `TextModeIntersection` compares it with a
  reference definition of the intersection and shows exactly when the order of the consoles
  matters. `ConSplitterTextOut` keeps the table in a flat array as the driver does, grown,
  filled, compacted in place and rebuilt; its class invariant says that the live part of the
  arrays is always the table of the consoles attached now, and a mode that is set brings
  every console to the geometry published for it.
- **Console splitter, graphics side** (`GraphicsModes`, `ConSplitterGraphics`). The shared
  resolution list, and how displays are brought to one resolution. Devices may fail.
- **Console splitter, input side** (`TextInput`, `ConSplitterTextIn`). Key notifications
  registered on all physical consoles or on none, and the shared key queue.
- **Graphics console** (`TextScreen`, `ScreenCells`, `CursorMarks`, `GraphicsConsole`,
  `ConSplitterCursor`). `TextScreen` is a reference console that takes one character at a
  time; the batched, recursive `OutputString` is proved to do the same, and every call keeps
  exactly one XORed cursor image on the screen. `ScreenCells` says cell by cell what the
  reference shows. `ConSplitterCursor` is the splitter's own
  cursor, which moves the same way.
- **eMMC** (`LongDivision`, `BlockIo`, `BlockErase`, `PartitionPlan`,
  `HardwarePartitions`, `SdhciHost`). Long division on machine integers; chunked reads and
  writes against a flat card whose commands may fail at any point; erase ranges cut at group
  borders; partition programming, its write order and its later decoding; the clock divisor,
  its register fields, and the busy-wait that adapts its limit.
- **Clock and keypad** (`AdjustablePll`, `KeypadQueue`). The fixed-point rate encoding in its
  register, and the 256-slot key ring with the two queues behind it.

Methods follow the driver's loops and are proved against functions on values; what the
driver is for is proved about those functions. Calls into devices are methods with a
nondeterministic outcome (`x := *`), so every statement covers failing devices unless it
says otherwise; ghost counters of the failures (`faults`, `refusals`) let the contracts say
that a call succeeds when nothing failed. Main results are marked MAIN in the files. The table lists them and the
driver's own functions; the loop steps and lemmas they rest on are in the files.

Where the code does not keep a promise, the model keeps the code, the exact condition is
proved, and an input shows the failure:

| what fails | exactly when | an input |
|---|---|---|
| the mode table is the intersection, whatever the order of the consoles | `TextModeIntersection.IntersectionIff`, `OrderIrrelevantIff` | `OrderMattersExample` |
| one cursor image is left after a failed mode change | `GraphicsConsole.Display.SetMode` | `LosesCursorImage` |
| the loop of OutputString ends | `TextScreen.NotWritableIff`, `GraphicsConsole.Display.Stalls` | `TextScreen.NotWritableExample`, `GraphicsConsole.Display.StallExample` |
| after a successful SetMode every console is in that mode | `ConSplitterTextOut.TextOutSplitter.SetMode` | `SetModeTwiceExample` |
| the mode chosen for the consoles has the wanted geometry | `ConSplitterTextOut.ChosenIsWantedIff` | `NoModeIsAModeExample` |
| notifications survive the removal of a console | `ConSplitterTextIn.DeleteKeepsSyncedIff`, `TextInSplitter.DeleteDevice` | `DeleteLosesHandleExample` |
| requests that pass the range check lie within the card | `BlockIo.RangeCheckIff` | `RangeWrapsExample` |
| every erase operation covers a block | `BlockErase.NoEmptyPieceIff` | `EmptyPieceExample` |
| erase addresses name the blocks | `BlockErase.AddressesNamePieceIff` | `AddressesExample` |
| the start of the enhanced area comes back | `PartitionPlan.PlanRoundTrip` | `StartLostExample`, `NoAreaExample` |
| the card clock stays below the request | `SdhciHost.TooFastIff` | `TooFastExample` |
| the PLL reports the rate that was set | `AdjustablePll.ReportedRightIff` | `ReportedWrongExample` |
| each notification function is called once | `KeypadQueue.NotifiedOnceIffSingleMatch` | `NotifiedTwiceExample` |

Check everything with `dafny verify dfyconfig.toml`.

## Model

| member | source | states |
|---|---|---|
| TextModes.RowsAgree | SC8830Pkg/Drivers/ConSplitterDxe/ConSplitter.c:2496-2570 | Every entry of a live row from 2 on is a mode in which that console really has the geometry published for the row, whatever the consoles list and how often |
| TextModes.SurvivorsAreShared | SC8830Pkg/Drivers/ConSplitterDxe/ConSplitter.c:2496-2570 | Only geometries that the first console has from mode 2 on and every other console offers are published from row 2 on, and all of them are, unless the first console has them at a reserved mode too |
| TextModes.CurrentModeFollowsItsRow | SC8830Pkg/Drivers/ConSplitterDxe/ConSplitter.c:2458-2483 | Over a compaction a valid current mode becomes the new index of the same row, and -1 exactly when that row is dropped |
| TextModes.Row0Is | SC8830Pkg/Drivers/ConSplitterDxe/ConSplitter.c:2531-2551 | Row 0 holds the first console's mode 0, and for every later one its last mode of that geometry, or -1 if it has none |
| TextModes.Row1Is | SC8830Pkg/Drivers/ConSplitterDxe/ConSplitter.c:2515-2551 | Row 1 holds 1 for the first console and for any without a mode 1; for any other its last mode of the geometry cached for mode 1 when it came, or -1 when that is cleared, not offered, or the geometry of mode 0 too |
| ConSplitterTextOut.RowFitsIff | SC8830Pkg/Drivers/ConSplitterDxe/ConSplitter.c:4861-4864 | The consoles all have the modes a row names if and only if: always from mode 2 on; for mode 0 when all offer the first one's; for mode 1 when none lacks it, all offer the first one's and it differs from mode 0; and then these are modes of one geometry |
| ConSplitterTextOut.GetIntersection | SC8830Pkg/Drivers/ConSplitterDxe/ConSplitter.c:2427-2486 | In place and under aliasing: the first rows become the kept rows in order, the mode count falls by the number dropped, the mode number moves with its row, and cells behind the kept rows are unchanged |
| ConSplitterTextOut.TextOutSplitter.constructor | SC8830Pkg/Drivers/ConSplitterDxe/ConSplitter.c:750-865 | An empty splitter publishes the one default mode |
| ConSplitterTextOut.TextOutSplitter.GrowMapTable | SC8830Pkg/Drivers/ConSplitterDxe/ConSplitter.c:2251-2330 | Live rows keep their used columns under the new row length; every other cell is -1 |
| ConSplitterTextOut.TextOutSplitter.AddOutputMode | SC8830Pkg/Drivers/ConSplitterDxe/ConSplitter.c:2344-2405 | The first device's modes become the mode list, with mode m in row m |
| ConSplitterTextOut.TextOutSplitter.SyncOutputMode | SC8830Pkg/Drivers/ConSplitterDxe/ConSplitter.c:2496-2570 | The arrays hold the table with the new device synchronised, and the current mode has moved with its row |
| ConSplitterTextOut.TextOutSplitter.AddDevice | SC8830Pkg/Drivers/ConSplitterDxe/ConSplitter.c:3127-3185 | After attaching, the live part of the arrays is the table of the list with the device appended, whatever happened before |
| ConSplitterTextOut.TextOutSplitter.DeleteDevice | SC8830Pkg/Drivers/ConSplitterDxe/ConSplitter.c:3319-3430 | Detaching leaves the table of the remaining list, or the default mode; not found exactly when no device matches; the current mode number moves with the compactions of the rebuild |
| ConSplitterTextOut.TextOutSplitter.QueryMode | SC8830Pkg/Drivers/ConSplitterDxe/ConSplitter.c:4767-4811 | Answers for every published mode, except for mode 1 when some console lacks it, with the geometry the first console has there; from mode 2 on every console offers it |
| ConSplitterTextOut.TextOutSplitter.SetMode | SC8830Pkg/Drivers/ConSplitterDxe/ConSplitter.c:4826-4878 | Every console that has its mode for the number and does not fail is in it afterwards, any other is where it was; success means no failure and all have it (`RowFitsIff`), and then all show the one geometry; a number that is current already only clears the screens, so after success the consoles are in their modes for it if and only if it was not current, or they were there already |
| ConSplitterTextOut.SetModeTwiceExample | SC8830Pkg/Drivers/ConSplitterDxe/ConSplitter.c:4852-4857 | One console refuses a mode, and the same call again succeeds with the console still in its old mode |
| ConSplitterTextOut.TextOutSplitter.SetConsoleOutMode | SC8830Pkg/Drivers/ConSplitterDxe/ConSplitter.c:3037-3111 | It falls back only when a console fails or lacks the chosen mode, or there is none; otherwise the chosen mode is in force and every console really has its geometry (unless it was current before); it is the wanted geometry if and only if some mode has that |
| ConSplitterTextOut.WantedIsChosen | SC8830Pkg/Drivers/ConSplitterDxe/ConSplitter.c:3066-3091 | The last mode with the wanted geometry is chosen, or 255 when none has it |
| ConSplitterTextOut.ChosenIsWantedIff | SC8830Pkg/Drivers/ConSplitterDxe/ConSplitter.c:3053-3096 | 255 stands for no mode, yet is set like any other: a mode that is set is the wanted one if and only if the geometry is listed or there are at most 255 modes |
| ConSplitterTextOut.NoModeIsAModeExample | SC8830Pkg/Drivers/ConSplitterDxe/ConSplitter.c:3053-3096 | 256 modes without the wanted geometry, and mode 255 is chosen |
| ConSplitterTextOut.LargestIsChosen | SC8830Pkg/Drivers/ConSplitterDxe/ConSplitter.c:3076-3086 | Without a wanted geometry no other mode has at least as many columns and rows as the mode chosen, unless it has exactly as many |
| ConSplitterTextOut.BaseIsDefault | SC8830Pkg/Drivers/ConSplitterDxe/ConSplitter.c:3087-3089 | The mode to fall back to has 40 by 12, or is 255 when none has |
| TextScreen.RunIsWrite | SC8830Pkg/Drivers/GraphicsConsoleDxe/GraphicsConsole.c:1081-1143 | Drawing a run that fits in one go and wrapping afterwards is writing it character by character |
| ScreenCells.RunCell | SC8830Pkg/Drivers/GraphicsConsoleDxe/GraphicsConsole.c:1121-1124 | A run that fits shows character k in the cells from the cursor plus k (wide: 2 k) on, each half in a cell of its own, in the current colour |
| ScreenCells.RunElsewhere | SC8830Pkg/Drivers/GraphicsConsoleDxe/GraphicsConsole.c:1121-1124 | Every other cell is unchanged |
| ScreenCells.LineFeedCells | SC8830Pkg/Drivers/GraphicsConsoleDxe/GraphicsConsole.c:986-1063 | On the last row every row moves up by one and the last is blank in the current colour; elsewhere only the cursor moves |
| ScreenCells.BackspaceCells | SC8830Pkg/Drivers/GraphicsConsoleDxe/GraphicsConsole.c:961-985 | The cursor goes back one cell in reading order, and the cell it comes to, and no other, becomes a space; at the very start nothing changes |
| ScreenCells.PrintedCells | SC8830Pkg/Drivers/GraphicsConsoleDxe/GraphicsConsole.c:1081-1143 | One printed character, narrow or wide: which cells it covers, the blank it leaves at the end of a line where it does not fit, and how far the screen scrolls |
| ScreenCells.TextFlows | SC8830Pkg/Drivers/GraphicsConsoleDxe/GraphicsConsole.c:894-1155 | Plain text of any length fills the cells from the cursor on in reading order, one character a cell; the screen shows the last rows of that picture with the cursor behind it |
| TextScreen.CursorsAgree | SC8830Pkg/Drivers/ConSplitterDxe/ConSplitter.c:4659-4691 | On every string without width changes the reference console's cursor moves as the splitter's virtual cursor |
| ConSplitterCursor.VirtualConsole.OutputString | SC8830Pkg/Drivers/ConSplitterDxe/ConSplitter.c:4659-4691 | The loop over the string moves the virtual cursor as the one-character function says and keeps it in range |
| GraphicsConsole.Display.FlushCursor | SC8830Pkg/Drivers/GraphicsConsoleDxe/GraphicsConsole.c:1900-2004 | XORs the cursor image: shows it when it does not show, erases it when it does, and touches nothing else; before a mode is set anything may be drawn |
| GraphicsConsole.Display.PrintRun | SC8830Pkg/Drivers/GraphicsConsoleDxe/GraphicsConsole.c:1081-1143 | A batch either writes at least one character as the reference does, or pads the line and consumes nothing; on a one-column display every wide character does the latter |
| GraphicsConsole.Display.OutputString | SC8830Pkg/Drivers/GraphicsConsoleDxe/GraphicsConsole.c:894-1155 | In every state between calls, text, cursor and scrolling become those of the per-character reference, for every string on which the loop ends; plain text shows in reading order from the cursor on (`TextFlows`); without width changes the cursor equals the virtual one; a clean screen stays clean, with exactly one cursor image |
| GraphicsConsole.Display.SetAttribute | SC8830Pkg/Drivers/GraphicsConsoleDxe/GraphicsConsole.c:1483-1509 | Refuses reserved bits; otherwise the attribute changes, what is on the screen besides the cursor image stays, and the discipline holds afterwards exactly when it held before |
| GraphicsConsole.Display.ClearScreen | SC8830Pkg/Drivers/GraphicsConsoleDxe/GraphicsConsole.c:1527-1593 | Blank text, cursor at the origin, and exactly one cursor image, also after the discipline was lost |
| GraphicsConsole.Display.SetCursorPosition | SC8830Pkg/Drivers/GraphicsConsoleDxe/GraphicsConsole.c:1617-1663 | Moves the cursor and its image or refuses; what else is on the screen stays, and the discipline holds afterwards exactly when it held before |
| GraphicsConsole.Display.EnableCursor | SC8830Pkg/Drivers/GraphicsConsoleDxe/GraphicsConsole.c:1682-1706 | Shows or hides the cursor image; what else is on the screen stays, and the discipline holds afterwards exactly when it held before |
| GraphicsConsole.Display.SetMode | SC8830Pkg/Drivers/GraphicsConsoleDxe/GraphicsConsole.c:1287-1462 | Success brings a cleared screen with the discipline, from whatever state; a failure with a mode in use has XORed the cursor image once and done nothing else, so the discipline survives if and only if there was nothing to be seen of the image |
| GraphicsModes.CommonMeaning | SC8830Pkg/Drivers/ConSplitterDxe/ConSplitter.c:2831-2893 | A resolution survives the intersection exactly when it was offered before and the new display has it, and none is listed twice |
| GraphicsModes.BufferIsIntersection | SC8830Pkg/Drivers/ConSplitterDxe/ConSplitter.c:2788-2908 | After any additions the buffer lists exactly what every display offers; with two or more displays without duplicates |
| GraphicsModes.Preferred | SC8830Pkg/Drivers/ConSplitterDxe/ConSplitter.c:2910-2932 | The shared mode is the new display's own resolution if listed, else 800 by 600 if listed, else the first |
| ConSplitterGraphics.GraphicsSplitter.constructor | SC8830Pkg/Drivers/ConSplitterDxe/ConSplitter.c:822-850 | No display, and one mode on offer, 800 by 600, which is current |
| ConSplitterGraphics.GraphicsSplitter.SetMode | SC8830Pkg/Drivers/ConSplitterDxe/ConSplitterGraphics.c:112-201 | With every listed mode supported by every display the search never leaves a display's range, only a failing display makes it fail, and success means one resolution everywhere |
| ConSplitterGraphics.GraphicsSplitter.Intersect | SC8830Pkg/Drivers/ConSplitterDxe/ConSplitter.c:2826-2902 | The nested loops compute the duplicate-free common part in order |
| ConSplitterGraphics.GraphicsSplitter.Choose | SC8830Pkg/Drivers/ConSplitterDxe/ConSplitter.c:2910-2932 | Computes the preferred mode |
| ConSplitterGraphics.GraphicsSplitter.AddDevice | SC8830Pkg/Drivers/ConSplitterDxe/ConSplitter.c:2748-3025 | Without failing displays and with something shared: exactly the resolutions common to all displays added are on offer, all supported everywhere, no display is asked for a mode it lacks, and all end at the preferred one, whose number becomes the current mode; a failing display may cost the first mode, success still means support and agreement |
| ConSplitterGraphics.GraphicsSplitter.AddTextConsole | SC8830Pkg/Drivers/ConSplitterDxe/ConSplitter.c:3172-3206 | A console without graphics joins; displays and modes on offer stay |
| ConSplitterGraphics.GraphicsSplitter.DeleteDevice | SC8830Pkg/Drivers/ConSplitterDxe/ConSplitter.c:3333-3359 | The modes on offer stay, and stay supported by every remaining display |
| TextInput.NoKeyLost | SC8830Pkg/Drivers/ConSplitterDxe/ConSplitter.c:3536-3900 | Over every run of reads without a reset, the full keys handed to callers plus those still queued are the full keys queued before and added since, in order: none lost, doubled or overtaken; without plain reads that holds of the partial keys too |
| TextInput.QueueStaysShort | SC8830Pkg/Drivers/ConSplitterDxe/ConSplitter.c:3826-3892 | No run leaves more keys queued than one poll of the consoles can give |
| TextInput.BatchKeys | SC8830Pkg/Drivers/ConSplitterDxe/ConSplitter.c:3839-3884 | A key is in a batch exactly when some console had it pressed (partial ones on request only), and it carries the one joined state |
| TextInput.BatchFromPolls | SC8830Pkg/Drivers/ConSplitterDxe/ConSplitter.c:3835-3884 | A batch has exactly one key for each console whose answer counts, in console order, each with the joined state |
| TextInput.JoinedBits | SC8830Pkg/Drivers/ConSplitterDxe/ConSplitter.c:3850-3857 | A shift or toggle bit is set in the joined state if and only if some console that answered with valid keys of that kind has it set |
| TextInput.WhichKeysMatch | SC8830Pkg/Drivers/ConSplitterDxe/ConSplitter.c:3694-3720 | A registration without states matches its key in every state, one with states only in those |
| TextInput.FirstFullIsFirst | SC8830Pkg/Drivers/ConSplitterDxe/ConSplitter.c:3561-3587 | Asking the plain consoles gives the first full key of the first console that has one, or none when none has |
| ConSplitterTextIn.TextInSplitter.constructor | SC8830Pkg/Drivers/ConSplitterDxe/ConSplitter.c:606-735 | Nothing attached, registered or queued; every size agrees |
| ConSplitterTextIn.TextInSplitter.RegisterKeyNotify | SC8830Pkg/Drivers/ConSplitterDxe/ConSplitter.c:3994-4077 | From every state: a notification that is listed succeeds at once; otherwise it fails without memory, and with memory it succeeds if and only if no console refuses. All or nothing: success lists it with one live registration per console, any failure leaves list and registrations as they were; listed notifications that were all registered on every console stay so |
| ConSplitterTextIn.TextInSplitter.UnregisterKeyNotify | SC8830Pkg/Drivers/ConSplitterDxe/ConSplitter.c:4094-4131 | From every state: the notification leaves the list and every console, the others keep theirs; an unknown handle changes nothing |
| ConSplitterTextIn.TextInSplitter.AddDevice | SC8830Pkg/Drivers/ConSplitterDxe/ConSplitter.c:1960-2048 | From every state: a console is attached with every listed notification registered if and only if no allocation fails, none being made while there is room, and it refuses nothing; otherwise it is not attached, its registrations and those of the others untouched, all sizes kept |
| ConSplitterTextIn.TextInSplitter.DeleteDevice | SC8830Pkg/Drivers/ConSplitterDxe/ConSplitter.c:2061-2083 | The console leaves the list, the others keep their order and registrations, and the handle lists stay as they are: notifications that were registered everywhere still are, under the stored handles, if and only if none is listed or the console was the last one |
| ConSplitterTextIn.TextInSplitter.DequeueKey | SC8830Pkg/Drivers/ConSplitterDxe/ConSplitter.c:3500-3519 | Takes the oldest key |
| ConSplitterTextIn.TextInSplitter.ReadKeyStrokeEx | SC8830Pkg/Drivers/ConSplitterDxe/ConSplitter.c:3794-3900 | A queued key is handed out, oldest first; on an empty queue there is no key if and only if no console pressed one that counts, and otherwise the first such console's key is handed out and those of the later ones are queued, one each, in console order, all with the joined state |
| ConSplitterTextIn.TextInSplitter.Reset | SC8830Pkg/Drivers/ConSplitterDxe/ConSplitter.c:3736-3773 | Empties the queue |
| LongDivision.Div64 | SC8830Pkg/Drivers/SprdEmmcDxe/sprd_mmc.c:969-1000 | The exact quotient and remainder for every 64-bit dividend and every divisor, on machine integers without overflow, with termination |
| BlockIo.Mmc.ReadBlocks | SC8830Pkg/Drivers/SprdEmmcDxe/sprd_mmc.c:727-763 | Within the card, a whole chunk from its place and the transfer ended, or nothing reported |
| BlockIo.RangeCheckIff | SC8830Pkg/Drivers/SprdEmmcDxe/sprd_mmc.c:564-566 | What the range check lets through is within the card if and only if the range does not wrap around 64 bits to a place within the card |
| BlockIo.RangeWrapsExample | SC8830Pkg/Drivers/SprdEmmcDxe/sprd_mmc.c:564-566 | Two blocks from the last 64-bit number pass on every card |
| BlockIo.Mmc.WriteBlocks | SC8830Pkg/Drivers/SprdEmmcDxe/sprd_mmc.c:557-611 | Unless the range wraps around 64 bits into the card: all of it to its place, the transfer ended and the card done, or nothing outside it touched |
| BlockIo.Mmc.BlockRead | SC8830Pkg/Drivers/SprdEmmcDxe/sprd_mmc.c:765-792 | Within a card that is idle it succeeds if and only if no command fails, and leaves the card idle; a successful read of a range that does not wrap around 64 bits is exactly the card's bytes of the range; a range the check refuses reads nothing |
| BlockIo.Mmc.BlockWrite | SC8830Pkg/Drivers/SprdEmmcDxe/sprd_mmc.c:613-630 | Within a card that is idle it succeeds if and only if no command fails, and leaves the card idle; unless the very first command wraps around 64 bits into the card, a successful write changes exactly the range, to the source, and a failed one nothing outside it; any chunk size |
| BlockIo.Mmc.WriteThenRead | SC8830Pkg/Drivers/SprdEmmcDxe/sprd_mmc.c:613-792 | Reading back what was written returns it when both block lengths agree: always when no command fails within the card, and whenever both report success on a range that does not wrap |
| BlockErase.PiecesPartition | SC8830Pkg/Drivers/SprdEmmcDxe/sprd_mmc.c:515-555 | Every block of the range lies in exactly one piece and no other block in any |
| BlockErase.PiecesProper | SC8830Pkg/Drivers/SprdEmmcDxe/sprd_mmc.c:525-546 | The pieces follow one another; whole-group erases hit only whole aligned groups, trims lie within one group |
| BlockErase.NoEmptyPieceIff | SC8830Pkg/Drivers/SprdEmmcDxe/sprd_mmc.c:525-529 | All pieces are non-empty if and only if the range is non-empty or starts on a border: an empty range with an unaligned start still sends one operation that ends before it begins |
| BlockErase.Mmc.EraseT | SC8830Pkg/Drivers/SprdEmmcDxe/sprd_mmc.c:330-380 | One acknowledged erase with the right addresses if and only if no command fails, else none |
| BlockErase.Mmc.BlockEraseRange | SC8830Pkg/Drivers/SprdEmmcDxe/sprd_mmc.c:515-555 | When no command fails all pieces are erased, the whole length is reported and the card is no longer busy; always, the acknowledged erases are a first part of the pieces, and unless the card stays busy the result is exactly the length they cover, -1 meaning none |
| PartitionPlan.PlanRoundTrip | SC8830Pkg/Drivers/SprdEmmcDxe/sprd_mmc.c:1203-1361 | What setting or completing writes decodes to 512 * enh_size and 512 * size[i], with the attributes, and leaves the card in high-capacity units; completing also marks the table complete and changes the reliability, setting does neither; the start comes back if and only if an area exists and its byte address fits, or none exists and the start was zero |
| PartitionPlan.SwitchedFirst | SC8830Pkg/Drivers/SprdEmmcDxe/sprd_mmc.c:1291-1305 | In every run, the switch to high-capacity units is the first byte sent unless the card was switched already |
| PartitionPlan.AcceptedIff | SC8830Pkg/Drivers/SprdEmmcDxe/sprd_mmc.c:1182-1286 | Acceptance by sizes and abilities: version 4.41 or later with partitioning, whole write-protect groups, no enhanced area without the attribute, enhanced sizes together within the maximum, no change of a reliability bit the host does not control, table not complete |
| PartitionPlan.EnhancedFitsIff | SC8830Pkg/Drivers/SprdEmmcDxe/sprd_mmc.c:1203-1259 | The enhanced groups fit the maximum if and only if the sizes of the enhanced user area and of all enhanced partitions together do |
| PartitionPlan.WriteOrder | SC8830Pkg/Drivers/SprdEmmcDxe/sprd_mmc.c:1288-1361 | Wherever a run stops: checking has sent nothing, setting never touches the write-once bytes, completion is the very last write, after the whole table and the reliability byte |
| PartitionPlan.AttributesMeaning | SC8830Pkg/Drivers/SprdEmmcDxe/sprd_mmc.c:1203-1235 | The attribute bits name exactly the enhanced areas of non-zero size |
| PartitionPlan.ReliabilityMeaning | SC8830Pkg/Drivers/SprdEmmcDxe/sprd_mmc.c:1261-1276 | Exactly the bits whose change is asked for take the requested value |
| HardwarePartitions.Card.Switch | SC8830Pkg/Drivers/SprdEmmcDxe/sprd_mmc.c:382-404 | One byte written, or possibly not when the switch or the wait fails |
| HardwarePartitions.Mmc.Check | SC8830Pkg/Drivers/SprdEmmcDxe/sprd_mmc.c:1182-1289 | A request passes exactly when it is accepted in the order-free form, unless the EXT_CSD cannot be read |
| HardwarePartitions.Mmc.HwpartConfig | SC8830Pkg/Drivers/SprdEmmcDxe/sprd_mmc.c:1171-1362 | It succeeds if and only if the request is acceptable and no command fails. Rejected or checked requests send nothing and change nothing; otherwise what is sent is the plan up to the first failure, high-capacity units first, the card has taken all of that or all but its last byte, and success means that the table asked for is on the card, complete exactly when that was asked; whatever is returned, a table that has become complete is the whole one |
| HardwarePartitions.CompletedIsWhole | SC8830Pkg/Drivers/SprdEmmcDxe/sprd_mmc.c:1288-1361 | Wherever a run stops, with whatever error: the table on the card is marked complete only when all of it is on the card |
| HardwarePartitions.Mmc.Startup | SC8830Pkg/Drivers/SprdEmmcDxe/sprd_mmc.c:1771-1963 | SD cards and early versions get an erase group of one block and nothing else; otherwise version, sizes, attributes and erase group are those of the EXT_CSD, sizes in 64 bits and only when partitioning is complete, and the erase-group switch is set exactly when there are partitions |
| HardwarePartitions.RevisionsThatPartition | SC8830Pkg/Drivers/SprdEmmcDxe/sprd_mmc.c:1823-1848 | EXT_CSD revisions 5, 6 and 7 are versions 4.41, 4.5 and 5.0; 1 to 3 are older ones, on which no request is accepted |
| HardwarePartitions.PartitionsSeenIff | SC8830Pkg/Drivers/SprdEmmcDxe/sprd_mmc.c:1851-1922 | A table that has been set but not completed is seen at start-up if and only if it has an area of some size |
| HardwarePartitions.Mmc.ConfigureAndRestart | SC8830Pkg/Drivers/SprdEmmcDxe/sprd_mmc.c:1171-1897 | Whenever a configuration leaves a card newly marked complete, as it does when it succeeds, the driver reports after a restart what was asked for |
| SdhciHost.BestIsUnique | SC8830Pkg/Drivers/SprdEmmcDxe/sprd_sdhci.c:551-569 | At most one divisor is the best one |
| SdhciHost.BestMeetsIff | SC8830Pkg/Drivers/SprdEmmcDxe/sprd_sdhci.c:551-569 | The request is met if and only if the largest divisor meets it |
| SdhciHost.TooFastIff | SC8830Pkg/Drivers/SprdEmmcDxe/sprd_sdhci.c:551-569 | The card runs faster than the request if and only if no legal divisor meets the request or the request lies just below a legal fraction of the base clock |
| SdhciHost.TooFastExample | SC8830Pkg/Drivers/SprdEmmcDxe/sprd_sdhci.c:557-559 | A base clock of 5 and a request of 2 give 2.5 |
| SdhciHost.ClockWordDecodes | SC8830Pkg/Drivers/SprdEmmcDxe/sprd_sdhci.c:574-577 | The split 8+2-bit field decodes to the ten bits it came from, with only the internal clock enabled |
| SdhciHost.SearchPowers | SC8830Pkg/Drivers/SprdEmmcDxe/sprd_sdhci.c:562-567 | The loop finds the smallest power of two that meets the request, or the largest |
| SdhciHost.SearchEven | SC8830Pkg/Drivers/SprdEmmcDxe/sprd_sdhci.c:552-560 | The loop finds the smallest version 3.00 divisor that meets the request, or the largest |
| SdhciHost.Host.SetClock | SC8830Pkg/Drivers/SprdEmmcDxe/sprd_sdhci.c:541-595 | The clock is stopped first, the divider is set while the card clock is off, and only then is it let out, if and only if the internal clock is unstable at most 2000 times; the register holds half the best divisor, even ones from host version 3.00 on and powers of two before; the card runs too fast exactly under the condition on the request |
| SdhciHost.Host.SetMmcClock | SC8830Pkg/Drivers/SprdEmmcDxe/sprd_mmc.c:1547-1558 | The clamped request is met if and only if the largest divisor meets it, and always when f_min is at least f_max over the largest divisor; a request of f_max or more is not divided |
| SdhciHost.Host.Clamped | SC8830Pkg/Drivers/SprdEmmcDxe/sprd_mmc.c:1549-1553 | What is between the limits stays, what is above becomes f_max and what is below f_min |
| SdhciHost.Host.WaitReady | SC8830Pkg/Drivers/SprdEmmcDxe/sprd_sdhci.c:146-198 | A command goes out exactly when the card is busy for at most 32000 polls, whatever limit earlier commands left; the limit grows only as needed and never shrinks |
| AdjustablePll.RateRoundTrip | SC8830Pkg/Drivers/SprdClockDxe/SprdClockDxe.c:204-278 | Computing the rate back from multiple and fraction gives the rate rounded down to 10 kHz |
| AdjustablePll.FractionFits | SC8830Pkg/Drivers/SprdClockDxe/SprdClockDxe.c:264-266 | The 32-bit intermediates cannot wrap and the fraction fits 20 bits |
| AdjustablePll.FractionIsNearest | SC8830Pkg/Drivers/SprdClockDxe/SprdClockDxe.c:264-266 | Of all fractions the one taken is nearest to what is left above the multiple |
| AdjustablePll.RateIsNearest | SC8830Pkg/Drivers/SprdClockDxe/SprdClockDxe.c:219-222 | A rate is reported to the nearest 10 kHz of what multiple and fraction stand for |
| AdjustablePll.RateInRange | SC8830Pkg/Drivers/SprdClockDxe/SprdClockDxe.c:204-224 | Every rate the register can express fits the 32-bit result |
| AdjustablePll.ReportedRightIff | SC8830Pkg/Drivers/SprdClockDxe/SprdClockDxe.c:263-271 | The six-bit multiple is enough if and only if the rate is below 64 * 26 MHz |
| AdjustablePll.EncodingIsOneToOne | SC8830Pkg/Drivers/SprdClockDxe/SprdClockDxe.c:254-278 | Two rates with the same encoding are the same to 10 kHz |
| AdjustablePll.RegisterRoundTrip | SC8830Pkg/Drivers/SprdClockDxe/SprdClockDxe.c:235-243 | Multiple (its low six bits) and fraction read back, and bits 7 to 11 of the register never change |
| AdjustablePll.Pll.RecalcRate | SC8830Pkg/Drivers/SprdClockDxe/SprdClockDxe.c:204-224 | The reported rate, never cut to 32 bits |
| AdjustablePll.Pll.RegWrite | SC8830Pkg/Drivers/SprdClockDxe/SprdClockDxe.c:235-243 | Inside the mask the bits of the value, outside it the old bits with those of the value on top |
| AdjustablePll.Pll.SetRate | SC8830Pkg/Drivers/SprdClockDxe/SprdClockDxe.c:254-278 | Afterwards the PLL reports floor(rate / 10000) * 10000 if and only if the rate is below 64 * 26 MHz; bits 7 to 11 are unchanged |
| KeypadQueue.PushAllKeepsLatest | SC8830Pkg/Drivers/KeypadDxe/KeypadTextIn.c:70-83 | However many keys arrive, the ring holds the last 255 of everything queued |
| KeypadQueue.LatestIs | SC8830Pkg/Drivers/KeypadDxe/KeypadTextIn.c:70-83 | Nothing is dropped up to 255 keys, and then exactly the oldest |
| KeypadQueue.ReportedIs | SC8830Pkg/Drivers/KeypadDxe/Keypad.c:168-176 | All keys on request, otherwise the full ones, in order |
| KeypadQueue.CalledIff | SC8830Pkg/Drivers/KeypadDxe/KeypadTextIn.c:679-698 | A function is called with a key if and only if it is registered for one that matches |
| KeypadQueue.KeyQueue.constructor | SC8830Pkg/Drivers/KeypadDxe/KeypadController.c:108-109 | An empty ring |
| KeypadQueue.KeyQueue.IsEmpty | SC8830Pkg/Drivers/KeypadDxe/KeypadTextIn.c:28-33 | True exactly when nothing is queued |
| KeypadQueue.KeyQueue.Pop | SC8830Pkg/Drivers/KeypadDxe/KeypadTextIn.c:45-61 | Gives and removes the oldest key, or reports none |
| KeypadQueue.KeyQueue.Push | SC8830Pkg/Drivers/KeypadDxe/KeypadTextIn.c:70-83 | Keeps the last 255 of the contents and the new key; indices stay below 256 |
| KeypadQueue.NotifiedOnceIffSingleMatch | SC8830Pkg/Drivers/KeypadDxe/Keypad.c:178-198 | Every queued copy is served to every matching registration, so each is called as often as there are matches; each is called exactly once if and only if at most one matches |
| KeypadQueue.KeypadConsole.KeyPressed | SC8830Pkg/Drivers/KeypadDxe/Keypad.c:159-201 | The key reaches both queues unless it is a partial key nobody asked for |
| KeypadQueue.KeypadConsole.TimerHandler | SC8830Pkg/Drivers/KeypadDxe/KeypadController.c:46-80 | After a poll both queues hold the last 255 of what they held and what was reported; nothing happens after an error |
| KeypadQueue.KeypadConsole.WaitForKey | SC8830Pkg/Drivers/KeypadDxe/KeypadTextIn.c:291-337 | Signals if and only if a full key is pending, dropping exactly the partial keys before it; after an error neither signals nor drops; the notification queue gets what was polled |
| KeypadQueue.KeypadConsole.ReadKeyStrokeWorker | SC8830Pkg/Drivers/KeypadDxe/KeypadTextIn.c:144-172 | Gives the oldest pending key, not ready when there is none, an error when the device failed |
| KeypadQueue.KeypadConsole.ProcessNotifies | SC8830Pkg/Drivers/KeypadDxe/KeypadTextIn.c:660-699 | Serves every queued key in order, with those that arrive meanwhile, and empties the queue |
| TextModeIntersection.BuildIsIntersection | SC8830Pkg/Drivers/ConSplitterDxe/ConSplitter.c:2344-2570 | Adding consoles one by one leaves exactly the intersection: rows from 2 on are, in order, the first console's first-listed modes whose geometry every other console offers, rows 0 and 1 stay, and the geometry cache is the first console's with mode 1 cleared once some console lacks it |
| TextModeIntersection.IntersectionIff | SC8830Pkg/Drivers/ConSplitterDxe/ConSplitter.c:2496-2570 | For a first console, the table is the intersection whatever the other consoles are if and only if mode 1's geometry is not listed again past the reserved modes (or mode 0 has it too) |
| TextModeIntersection.OrderOfOthersIrrelevant | SC8830Pkg/Drivers/ConSplitterDxe/ConSplitter.c:3127-3185 | Reordering or repeating the consoles after the first changes neither the cache nor which rows survive nor their order |
| TextModeIntersection.OrderIrrelevantIff | SC8830Pkg/Drivers/ConSplitterDxe/ConSplitter.c:3127-3185 | For a first console, that holds for all lists of others if and only if mode 1 is listed apart |
| TextModeIntersection.OrderMattersExample | SC8830Pkg/Drivers/ConSplitterDxe/ConSplitter.c:2526-2555 | A first console that lists 80 by 50 at modes 1 and 2, and two consoles whose order decides whether it is published |
| ConSplitterTextOut.HistoryIndependent | SC8830Pkg/Drivers/ConSplitterDxe/ConSplitter.c:3319-3430 | Two splitters with the same consoles, whatever happened to them before, publish the same number of modes and hold the same geometry and the same console numbers in every live cell |
| TextScreen.NotWritableIff | SC8830Pkg/Drivers/GraphicsConsoleDxe/GraphicsConsole.c:1095-1136 | A string is outside the reference exactly when the display has one column and the string comes to a printable character while wide characters are on |
| GraphicsConsole.Display.constructor | SC8830Pkg/Drivers/GraphicsConsoleDxe/GraphicsConsole.c:36-43 | The start state: no mode, a visible cursor, light gray on black |
| GraphicsConsole.Display.Stalls | SC8830Pkg/Drivers/GraphicsConsoleDxe/GraphicsConsole.c:1081-1143 | In that case the loop gets to that character, and no number of further turns consumes it |
| TextScreen.NotWritableExample | SC8830Pkg/Drivers/GraphicsConsoleDxe/GraphicsConsole.c:1095-1136 | On one column, the switch to wide characters followed by an A |
| GraphicsConsole.Display.StallExample | SC8830Pkg/Drivers/GraphicsConsoleDxe/GraphicsConsole.c:1081-1143 | That string on a one-column display: the switch is done, and no number of turns prints the A |
| GraphicsConsole.LosesCursorImage | SC8830Pkg/Drivers/GraphicsConsoleDxe/GraphicsConsole.c:1344-1379 | A refused mode change after which the visible cursor has no image |
| ConSplitterTextIn.TextInSplitter.ReadKeyStroke | SC8830Pkg/Drivers/ConSplitterDxe/ConSplitter.c:3536-3590 | The first full queued key, the partial ones in front being dropped; else the first full key of the first plain console that has one, or none when none has |
| ConSplitterTextIn.DeleteKeepsSyncedIff | SC8830Pkg/Drivers/ConSplitterDxe/ConSplitter.c:2071-2080 | For every list of consoles: after one leaves, the listed notifications are still registered under the stored handles if and only if none is listed or the console was the last one |
| ConSplitterTextIn.DeleteLosesHandleExample | SC8830Pkg/Drivers/ConSplitterDxe/ConSplitter.c:2071-2080 | Two consoles and one notification, and the first console leaves |
| BlockErase.AddressesNamePieceIff | SC8830Pkg/Drivers/SprdEmmcDxe/sprd_mmc.c:337-342 | The two 32-bit addresses name the first and last block of a piece if and only if the last block's address fits 32 bits |
| BlockErase.AddressesExample | SC8830Pkg/Drivers/SprdEmmcDxe/sprd_mmc.c:337-342 | The last block a high-capacity address can name, and one block more |
| BlockErase.EmptyPieceExample | SC8830Pkg/Drivers/SprdEmmcDxe/sprd_mmc.c:525-529 | An empty range from block 1 with groups of two sends an operation from block 1 to block 0 |
| PartitionPlan.StartLostExample | SC8830Pkg/Drivers/SprdEmmcDxe/sprd_mmc.c:1213-1217 | An accepted request on a byte-addressed card whose start comes back as zero |
| PartitionPlan.NoAreaExample | SC8830Pkg/Drivers/SprdEmmcDxe/sprd_mmc.c:1218-1221 | An accepted request without an area whose start is not kept |
| PartitionPlan.AttributesZero | SC8830Pkg/Drivers/SprdEmmcDxe/sprd_mmc.c:1237-1240 | The card has to support enhanced areas exactly when some area asked for is enhanced |
| AdjustablePll.ReportedWrongExample | SC8830Pkg/Drivers/SprdClockDxe/SprdClockDxe.c:263-271 | 1664 MHz is reported as zero |
| AdjustablePll.KintBitsIsShift | SC8830Pkg/Drivers/SprdClockDxe/SprdClockDxe.c:186-186 | The bits written for a fraction are its twenty-bit word shifted up by twelve |
| AdjustablePll.NumberCounts | SC8830Pkg/Drivers/SprdClockDxe/SprdClockDxe.c:219-219 | The value read from the field counts the twenty-bit words |
| KeypadQueue.NotifiedTwiceExample | SC8830Pkg/Drivers/KeypadDxe/Keypad.c:178-198 | Two functions registered for one key are called twice each |
| KeypadQueue.ServedAlone | SC8830Pkg/Drivers/KeypadDxe/KeypadTextIn.c:679-698 | When nothing arrives meanwhile exactly the queue is served |
| KeypadQueue.ServedInOrder | SC8830Pkg/Drivers/KeypadDxe/KeypadTextIn.c:660-699 | While the ring has room and does not run empty before the last arrival, what was queued and then everything that arrives is served, in order, each once |

## Left out

- UEFI driver binding, protocol installation, TPL changes, events and timers, PCD feature switches, UGA displays, pointer devices, SPI mode and CONFIG_FPGA branches: plumbing or alternatives around the modelled logic.
- Real registers, DMA, cache maintenance, delays and debug output; a device is an object whose calls succeed or fail at will.
- Allocation failures of the text and graphics output tables; those of the input side are modelled.
- A text device attached to ConOut and StdErr at once: the search for it (ConSplitter.c:2618-2634) is taken to find none.
- TextModes.WellFormed: every statement about the mode table takes QueryMode to fail on mode 1 only, as the protocol has it, and never to report the geometry of zero columns and rows, which the driver itself uses for a missing mode.
- TextModeIntersection.BuildIsIntersection: rows 0 and 1 stay whatever the later consoles offer, as the driver reserves them; what they hold is in `TextModes.Row0Is` and `Row1Is`. Its condition on mode 1 is the exact one (`IntersectionIff`).
- ConSplitterTextOut.TextOutSplitter.DeleteDevice: says how the current mode number moves in the rebuild, not that it names the geometry it named before, which the driver does not see to (ConSplitter.c:3409-3430). The call of SetConsoleOutMode after attaching (ConSplitter.c:3302) is left to the caller.
- ConSplitterTextOut.TextOutSplitter.SetMode: a console that refuses a mode is taken to stay in the one it was in.
- ConSplitterGraphics.GraphicsSplitter.AddDevice: after the shared list has run empty the driver reads and writes behind an empty buffer; the model gives it one unspecified entry there and promises nothing about the modes. QueryMode of a display is taken to succeed, and pixel formats and frame buffer addresses are not modelled.
- ConSplitterGraphics.GraphicsSplitter.DeleteDevice: the driver does not give back modes that the removed display had ruled out, so the buffer is then only contained in what the remaining ones offer.
- GraphicsConsole.Display.OutputString: glyphs are taken to be drawn successfully and to overwrite their whole cells, a wide one two cells. After a failed mode change it promises the text and the cursor place but not the cursor image.
- GraphicsConsole.Display.SetMode: the resolution switch of the underlying display and the line buffer allocation are reduced to the flags gopSet and lineAllocated; that the driver keeps the pointer to a freed line buffer is modelled only as "there is one".
- ConSplitterTextIn.TextInSplitter.AddDevice: a console that is attached already is not attached again; the driver opens its protocol BY_DRIVER before it adds it (ConSplitter.c:1087-1098), which fails the second time.
- ConSplitterTextIn.TextInSplitter.ReadKeyStroke: each plain console is taken to report at some point that it has nothing more, without which the driver's loop need not end. Toggle-state synchronisation is left out.
- Hardware assumption of the input side: a physical console gives every registration it accepts a handle not in use on it or on another console; handles are pointers.
- BlockIo.Mmc.BlockRead: a range that wraps around 64 bits into the card passes the driver's check (`RangeCheckIff`), and nothing is promised about what is then read; for BlockIo.Mmc.BlockWrite that is so only when the first command wraps. Background writes and RPMB access are not modelled.
- BlockIo.Mmc.Initialised: that a high-capacity card, or one in double data rate, has 512-byte blocks and that its addresses fit 32 bits is taken as established by start-up, and that the block limit of one command is positive, fits 32 bits and is one the host can move as a setting of the host.
- BlockErase.Mmc.BlockEraseRange: a command that reports a failure is counted as not done, and ranges are not compared with the size of the card, as in the driver; the erase group size is taken to be positive.
- HardwarePartitions.Mmc.Startup: only the part of start-up that decodes version, partitions and group sizes; capacity, boot partitions, timing and bus width are left out.
- SdhciHost.Host.SetClock: the board hook that also receives the divisor, and data transfer in sprd_sdhci.c, are left out.
- AdjustablePll.Pll.SetRate: the settling delay; also the clock multiplexers and dividers of SprdClockDxe.c, whose bit-index arguments are unsettled.
- KeypadQueue.KeypadConsole.ReadKeyStrokeWorker: KeypadReadKeyStroke, which polls again on every partial key, is left out.
- SprdSdhciDxe, SprdGpioDxe, SprdI2CDxe, SprdDmaDxe, SprdSmemDxe, fonts, logo, SMBIOS and memory map: constants or plumbing.
