# CrochetCharts core, modelled in Dafny

This project models the core of CrochetCharts, a Qt desktop editor for crochet
pattern charts, and proves properties of that model.

- **Row scene** (`scene_rows.dfy`, module `SceneRows`). A chart is a jagged
  list of rows, and each row is a list of cells. The model covers:
  - lookup by row and column;
  - insertion with column clamping (`addCell`) and with creation of missing
    rows (`appendCell`);
  - removal by identity (`removeCell`, via `findGridPosition`);
  - the per-row re-layout that gives each cell its position, anchor and white
    colour (`setCellPosition`, `redistributeCells`);
  - bulk construction (`createChart`, `createRow`);
  - the stitch-mode rule that turns a mouse release into a SetCellStitch or
    AddCell command on the undo stack.

  Cells are objects in the program. Here a cell is an identity into the scene's
  arena of cell states, and the grid holds identities.
- **Edit modes** (`edit_modes.dfy`, module `EditModes`): the six mode actions
  and their integer codes 10 to 15, with -1 for any other action.
- **Main window** (`main_window.dfy`, module `MainWindow`). The window's
  bookkeeping:
  - the most-recently-used file list and its menu;
  - unique titles for new chart tabs;
  - the edit mode, stitch and colours pushed to every chart tab;
  - which action of the modes menu ends up checked;
  - the ordering and numbering of the pattern-colour list;
  - tab removal.
- **Stitch** (`stitch.dfy`, module `Stitch`). A stitch icon:
  - SVG detection by file suffix;
  - replacing black (`#000000`) with the primary or the alternate colour;
  - the choice between the primary and the alternate SVG renderer;
  - pixmap caching;
  - the 32-unit size fallback.
- `wrappers.dfy` holds the `Option` type.

Commands pushed on an undo stack are records appended to a sequence. Values the
program reads from its settings, from the file system or from Qt's loaders are
parameters:
- the maximum number of recent files;
- which files exist;
- the colour prefix, and the primary and alternate colours;
- whether alternate colours are on;
- file contents, SVG validity and view boxes, decoded pixmaps;
- the current chart's modes.

Where the design description and the code differ, the model follows the code,
with one exception recorded under "## Findings": the pattern-colour list is
built in the corrected order, which keeps colours added at the same time.
- A point exactly on a grid line resolves to the preceding column or row. The
  rule is ceil(x / w) - 1, so x = k * w gives k - 1, not the cell below-right.
- `addCell` creates at most one missing row. Only `appendCell` pads up to the
  requested row.
- Every re-layout paints the cell white.
- The RemoveCell push in the release handler cannot be reached. In its branch
  no cell is remembered, so the handler returns first.

## Model

| member | source | states |
|---|---|---|
| SceneRows.GridCoord | src/scenerows.cpp:247-248 | the resolved index k satisfies k*size < v <= (k+1)*size: the band (k*size, (k+1)*size] resolves to k |
| SceneRows.GridCoordUnique | src/scenerows.cpp:247-248 | the band property determines the resolved index: any j with j*size < v <= (j+1)*size equals GridCoord(v, size) |
| SceneRows.GridCoordOnLine | src/scenerows.cpp:247-248 | a point exactly on the line k*size resolves to the preceding index k-1 |
| SceneRows.GridCoordInside | src/scenerows.cpp:247-248 | every point k*size + d with 0 < d <= size resolves to k |
| SceneRows.LayoutPos | src/scenerows.cpp:126 | the lower edge of a cell laid out in row `row` resolves to that row when hit-tested |
| SceneRows.LayoutRowResolves | src/scenerows.cpp:247-248 | every point of the band a laid-out cell occupies, top edge excluded, resolves back to that cell's row |
| SceneRows.ClickAboveChartRow | src/scenerows.cpp:247-248 | a release at a scene height in (-h, 0] resolves to row -1, which no list of rows holds |
| SceneRows.InsertAt | src/scenerows.cpp:112 | inserting at index i: length grows by one, the new element is at i, the prefix and the shifted suffix are kept, the multiset gains c |
| SceneRows.InsertIndex | src/scenerows.cpp:102-112 | the insertion index is the row length when x is at or past the end, 0 for a negative x (a list insert before the start prepends), x otherwise; it never exceeds the length |
| SceneRows.IndexOf | src/scenerows.cpp:181 | the index of the first occurrence: the element is there and nowhere earlier |
| SceneRows.RemoveOne | src/scenerows.cpp:57-61 | a row without c is returned unchanged; a row holding c loses exactly one element |
| SceneRows.RemoveOneCount | src/scenerows.cpp:57-61 | removing one occurrence lowers c's count by one when present and leaves every other count |
| SceneRows.InsertRemove | src/scenerows.cpp:53-112 | removing a freshly inserted element that was absent restores the row |
| SceneRows.IndexOfUnique | src/scenerows.cpp:181 | in a row without duplicates, the position of c is the only index holding c |
| SceneRows.RemoveOneNoDup | src/scenerows.cpp:59 | removal keeps a row free of duplicates |
| SceneRows.InsertAtNoDup | src/scenerows.cpp:112 | inserting an absent cell keeps a row free of duplicates |
| SceneRows.WithRow | src/scenerows.cpp:104-107 | the grid with row y present: unchanged when it exists, one empty row appended otherwise |
| SceneRows.PaddedGrid | src/scenerows.cpp:82-87 | the grid padded with empty rows up to index row: old rows unchanged, new rows empty, row exists |
| SceneRows.AppendedGrid | src/scenerows.cpp:78-95 | after appendCell the row index exists, the rows other than `row` are kept and the padding rows are empty |
| SceneRows.RemovedGrid | src/scenerows.cpp:57-61 | the grid with the first occurrence of c removed from every row that holds it; no row is deleted |
| SceneRows.FirstRowWith | src/scenerows.cpp:179-183 | the first row holding c: it holds c and no earlier row does |
| SceneRows.GridPosition | src/scenerows.cpp:177-186 | the position found is (0, 0) or a valid (column, row) of the grid that holds c |
| SceneRows.AddedGrid | src/scenerows.cpp:97-120 | after addCell the row count grows by one exactly when p.y was the row count, row p.y grows by one, and every other row is unchanged |
| SceneRows.AddedGridShape | src/scenerows.cpp:102-112 | c sits at the clamped index of row p.y, the elements before it are kept and the rest of the row is shifted one place right |
| SceneRows.AddThenRemove | src/scenerows.cpp:53-120 | for a cell not in the grid, adding it at p and removing it restores every row, with row p.y present |
| SceneRows.AppendedGridShape | src/scenerows.cpp:78-95 | after appendCell row `row` exists and ends with c, rows before it keep their contents, and every other row is unchanged |
| SceneRows.RemovedGridAbsent | src/scenerows.cpp:53-64 | removing a cell that is not in the grid changes no row |
| SceneRows.RemovedGridRows | src/scenerows.cpp:57-61 | per row: one element fewer when the row held c, unchanged when it did not, and the row's multiset loses one c |
| SceneRows.GridPositionSpec | src/scenerows.cpp:177-186 | the position of a present cell is (index in the first row holding it, that row); an absent cell gives (0, 0) |
| SceneRows.AddedGridDistinct | src/scenerows.cpp:97-120 | adding an absent cell keeps every cell in at most one place in the grid |
| SceneRows.RemovedGridDistinct | src/scenerows.cpp:53-64 | removal keeps every cell in at most one place in the grid |
| SceneRows.PlacedKeepsOnlyStitch | src/scenerows.cpp:126-129 | a forced re-layout overwrites position, anchor and colour and keeps the stitch and side |
| SceneRows.FreshRowStable | src/scenerows.cpp:157-175 | a laid-out fresh row stays described as such when cells outside it are added later |
| SceneRows.Scene.constructor | src/scenerows.cpp:29-32 | an empty scene: no rows, no cells, nothing remembered, an empty undo stack |
| SceneRows.Scene.RowCount | src/scenerows.cpp:66-69 | the number of rows |
| SceneRows.Scene.ColumnCount | src/scenerows.cpp:71-76 | 0 for a row at or past the row count, otherwise the row's length |
| SceneRows.Scene.Cell | src/scenerows.cpp:39-46 | requires the row to exist (the source asserts it); None exactly when the column is at or past the row's end, otherwise the stored cell |
| SceneRows.Scene.CellAtPoint | src/scenerows.cpp:48-51 | a point is read as (column x, row y): None exactly when x is at or past the end of row y, otherwise the cell stored there |
| SceneRows.Scene.NewCell | src/scenerows.cpp:163 | a fresh cell identity with the state of a new cell, no other cell changed |
| SceneRows.Scene.SetCellPosition | src/scenerows.cpp:122-133 | position becomes (column*w + 5*column, row*h) and colour white; the anchor follows when forced or still null, and an existing non-null anchor is kept otherwise |
| SceneRows.Scene.RedistributeCells | src/scenerows.cpp:135-145 | no-op for a row past the end; otherwise cell i of the row gets position and anchor LayoutPos(row, i) and colour white, and every other cell is unchanged |
| SceneRows.Scene.AddCell | src/scenerows.cpp:97-120 | the grid becomes AddedGrid: one missing row at most, c inserted at the clamped column, row grows by one, other rows unchanged; the row is re-laid and every other cell is unchanged |
| SceneRows.Scene.InsertIntoRow | src/scenerows.cpp:102-112 | the list part of addCell: grid becomes AddedGrid and the returned index is the clamped column |
| SceneRows.Scene.AppendCell | src/scenerows.cpp:78-95 | the grid becomes AppendedGrid (missing rows created, c last in its row); the row is re-laid white and the other cells are unchanged |
| SceneRows.Scene.AppendMissingRows | src/scenerows.cpp:82-87 | the grid becomes PaddedGrid: empty rows appended until the row exists |
| SceneRows.Scene.RelayAppended | src/scenerows.cpp:91-93 | appendCell's final setCellPosition and white colour leave every cell as addCell laid it out |
| SceneRows.Scene.FindGridPosition | src/scenerows.cpp:177-186 | returns GridPosition: (index, row) of the first row holding c, (0, 0) when c is absent |
| SceneRows.Scene.RemoveCell | src/scenerows.cpp:53-64 | the grid becomes RemovedGrid; the row of the found position (row 0 for an absent cell) is re-laid |
| SceneRows.Scene.RemoveFromRows | src/scenerows.cpp:57-61 | the loop of removeCell: the first occurrence of c leaves every row that holds it |
| SceneRows.Scene.CreateRow | src/scenerows.cpp:157-175 | appends one row of `columns` new cells, each with the stitch, wrong side for an odd row, white, position and anchor of its column; existing rows and cells unchanged |
| SceneRows.Scene.NewRowCell | src/scenerows.cpp:163-171 | one step of createRow: a new cell with the stitch and side, white, laid out with its anchor |
| SceneRows.Scene.CreateChart | src/scenerows.cpp:147-155 | sets the cell size and appends `rows` fresh rows, the i-th laid out as row i; existing rows and cells unchanged |
| SceneRows.Scene.StitchModeMouseRelease | src/scenerows.cpp:237-265 | with a remembered cell, SetCellStitch is pushed only if its stitch differs and nothing moves, and the cell is forgotten; otherwise, with no rubber band and no move, a left click without Control pushes AddCell at (ceil(x/w)-1, ceil(y/h)-1) with the edit stitch and the row's parity as side; at most one push, never RemoveCell |
| SceneRows.Scene.MouseReleaseEvent | src/scenerows.cpp:213-221 | this handler's own switch acts only in stitch mode: in any other mode it pushes nothing and changes nothing |
| SceneRows.AddThenRemoveRestoresGrid | src/scenerows.cpp:53-120 | on the scene itself, addCell then removeCell of a cell not in the grid, into an existing row, restores the grid |
| EditModes.ModeCode | src/mainwindow.cpp:983-1001 | stitch, color, grid, position, angle and stretch map to 10..15 in group order, anything else to -1 |
| EditModes.ActionForCode | src/mainwindow.cpp:1003-1017 | a code names a mode action exactly when it is 10..15, and that action's code is the code |
| EditModes.ModeCodeInjective | src/mainwindow.cpp:983-1001 | distinct mode actions have distinct codes |
| MainWindow.Digit | src/mainwindow.cpp:902 | the character of a decimal digit d is the digit character d places after '0' |
| MainWindow.NumberString | src/mainwindow.cpp:902 | the decimal text of a number is a non-empty string of digits, one digit long exactly below 10 |
| MainWindow.NumberStringInjective | src/mainwindow.cpp:902 | different numbers have different decimal texts |
| MainWindow.NumberedInjective | src/mainwindow.cpp:902 | a base name followed by different numbers gives different titles |
| MainWindow.NumberStringShort | src/mainwindow.cpp:899-903 | a number written with at most k digits is below 10^k |
| MainWindow.TakenNameBound | src/mainwindow.cpp:899-903 | a taken title made of a base name and a number bounds that number, so the name search ends |
| MainWindow.LastSlash | src/mainwindow.cpp:350 | the index of the last '/' lies within the path, or is -1 |
| MainWindow.FileNameSpec | src/mainwindow.cpp:350 | the file name shown is a suffix of the path holding no '/', preceded by '/' when shorter than the path |
| MainWindow.RemoveAll | src/mainwindow.cpp:319-320 | the list without f, never longer |
| MainWindow.RemoveAllCount | src/mainwindow.cpp:319-320 | f no longer occurs and every other entry keeps its number of occurrences |
| MainWindow.RemoveAllConcat | src/mainwindow.cpp:319-320 | removal works piece by piece, so the remaining entries keep their relative order |
| MainWindow.RemoveAllAbsent | src/mainwindow.cpp:319 | without an occurrence of f the list is unchanged |
| MainWindow.Prepended | src/mainwindow.cpp:316-322 | f first, not occurring again after it, and at most one entry longer than before |
| MainWindow.PrependedFront | src/mainwindow.cpp:316-322 | after adding f, f is present exactly once, and every other entry keeps its count |
| MainWindow.ExistingOf | src/mainwindow.cpp:339-341 | the kept files all exist and come from the list |
| MainWindow.ExistingOfCount | src/mainwindow.cpp:339-341 | an existing file is kept as often as it occurs, a missing one never |
| MainWindow.ExistingOfConcat | src/mainwindow.cpp:339-341 | the filter works piece by piece, so kept files stay in list order |
| MainWindow.Capacity | src/mainwindow.cpp:342-344 | the rebuilt list may hold at least one file and at least the maximum |
| MainWindow.RecentList | src/mainwindow.cpp:329-346 | the rebuilt list holds no more than the capacity, and only files that exist and were in the old list |
| MainWindow.RecentListSpec | src/mainwindow.cpp:329-346 | the rebuilt list is a prefix of the existing files in list order and drops nothing while there is room |
| MainWindow.RecentListNonEmpty | src/mainwindow.cpp:329-346 | the rebuilt list keeps at least one file when any file of the old list exists |
| MainWindow.RecentActionsVisible | src/mainwindow.cpp:356-359 | every action of a rebuilt list is visible exactly when the maximum is at least one |
| MainWindow.KeepExisting | src/mainwindow.cpp:337-346 | the first loop with its break yields RecentList of the old list |
| MainWindow.RecentMenu | src/mainwindow.cpp:348-361 | one action per kept file |
| MainWindow.RecentMenuAt | src/mainwindow.cpp:348-361 | the k-th action has text "&(k+1) name", data the k-th path, and is visible iff k is below the maximum |
| MainWindow.RecentActions | src/mainwindow.cpp:348-361 | the loop builds exactly RecentMenu of the kept files |
| MainWindow.FirstEnabled | src/mainwindow.cpp:967-978 | the first enabled index in a range: enabled, and no enabled index before it in the range; None when none is enabled |
| MainWindow.KeyedInsert | src/mainwindow.cpp:1185 | map insertion by added time: at most one entry more, the new colour present, every entry an old one or the new one |
| MainWindow.KeyedInsertStrict | src/mainwindow.cpp:1185 | keyed insertion keeps the added times strictly ascending |
| MainWindow.KeyedByAdded | src/mainwindow.cpp:1183-1186 | the colours as the program collects them: strictly ascending added times (one colour per time), never more than given, each one of the input colours |
| MainWindow.KeyedByAddedDropsColor | src/mainwindow.cpp:1180-1187 | keyed by added time, two colours added at the same time leave only the later one |
| MainWindow.StableInsertCount | src/mainwindow.cpp:1184-1185 | inserting by added time adds exactly the swatch |
| MainWindow.StableInsertSorted | src/mainwindow.cpp:1184-1185 | inserting by added time keeps the list sorted |
| MainWindow.ByAdded | src/mainwindow.cpp:1180-1187 | the pattern colours sorted by added time, a permutation of the input |
| MainWindow.KeyedInsertStable | src/mainwindow.cpp:1185 | without a clash of added times, keyed insertion and stable insertion agree |
| MainWindow.KeyedByAddedAgrees | src/mainwindow.cpp:1180-1187 | without a clash of added times, the colours keyed by time are exactly the sorted colours |
| MainWindow.Kept | src/mainwindow.cpp:1192-1193 | never more colours than given |
| MainWindow.KeptSub | src/mainwindow.cpp:1189-1202 | the listed colours come from the sorted colours |
| MainWindow.KeptSorted | src/mainwindow.cpp:1189-1202 | skipping colours keeps the list in ascending order of added time |
| MainWindow.KeptAll | src/mainwindow.cpp:1192-1193 | when no colour reads like an item label, every colour gets an item |
| MainWindow.LabelsOfLabelled | src/mainwindow.cpp:1192-1193 | a colour matches an item's text exactly when it equals prefix+j for a listed number j |
| MainWindow.KeptOfSorted | src/mainwindow.cpp:1188-1200 | skipping label-like colours keeps a sorted permutation sorted and within the colours, and drops nothing when no colour reads like a label |
| MainWindow.PatternColorList | src/mainwindow.cpp:1171-1203 | the listed colours are pattern colours in ascending order of added time, and every colour is listed when none reads like a label |
| MainWindow.ListColors | src/mainwindow.cpp:1189-1202 | the listing loop yields the labelled kept colours, the counter rising only for added items |
| MainWindow.SortByAdded | src/mainwindow.cpp:1183-1187 | the collecting loop in its corrected form (see Findings): it yields ByAdded, every colour sorted by added time, tied colours kept |
| MainWindow.Titles | src/mainwindow.cpp:913-915 | the titles of the tabs, in tab order |
| MainWindow.NextNameUnique | src/mainwindow.cpp:895-907 | the next free title for a base name is determined by the existing titles |
| MainWindow.NextNameNonEmpty | src/mainwindow.cpp:895-907 | a taken base name never leads to an empty title |
| MainWindow.NextNameExample | src/mainwindow.cpp:895-907 | with a tab titled "A", the next title for "A" is "A1" and nothing else |
| MainWindow.MaxLength | src/mainwindow.cpp:895-907 | no title is longer than the bound |
| MainWindow.GroupIndex | src/mainwindow.cpp:1007-1018 | a mode code 10..15 names the group action at index code-10 |
| MainWindow.PushedModeAgrees | src/mainwindow.cpp:1020-1024 | after a mode is pushed, every chart tab has it, other tabs are untouched, and titles are unchanged |
| MainWindow.Window.constructor | src/mainwindow.cpp:40-42 | a new window: mode 10, stitch "ch", black on white, no tabs |
| MainWindow.Window.AddToRecentFiles | src/mainwindow.cpp:316-322 | the list becomes f followed by the old list without f |
| MainWindow.Window.SetupRecentFiles | src/mainwindow.cpp:329-368 | the list becomes RecentList of the old list and the menu becomes RecentMenu of the new list |
| MainWindow.Window.DocHasChartName | src/mainwindow.cpp:909-918 | true exactly when some tab has the title |
| MainWindow.Window.NextChartName | src/mainwindow.cpp:895-907 | IsNextName: the result is no tab's title; it is the base name when free, otherwise the base name followed by the smallest k >= 1 that gives a free title |
| MainWindow.Window.NewChart | src/mainwindow.cpp:849-893 | the new tab's title is no old title: a taken title becomes its next free name (title followed by the smallest free k), a free non-empty title is kept, and a free empty title becomes the default name's next free name; the tab starts with the window's mode, stitch and colours; the document is modified |
| MainWindow.Window.PushToTabs | src/mainwindow.cpp:1020-1024 | every chart tab gets the setting, other tabs are untouched |
| MainWindow.Window.SetEditMode | src/mainwindow.cpp:1003-1025 | stores the mode, checks the action of a code 10..15 (others leave the group), and pushes the mode to every chart tab |
| MainWindow.Window.ChangeTabMode | src/mainwindow.cpp:983-1001 | the triggered action's code becomes the mode; any other action gives -1 and leaves the group |
| MainWindow.Window.SelectStitch | src/mainwindow.cpp:496-518 | an empty stitch changes nothing; otherwise every chart tab gets the stitch and the mode becomes 10 |
| MainWindow.Window.SelectListedColor | src/mainwindow.cpp:520-530 | the item's colour becomes every chart tab's background colour and the mode becomes 11 |
| MainWindow.Window.UpdateBgColor | src/mainwindow.cpp:476-484 | the window's background colour goes to every chart tab and the mode becomes 11 |
| MainWindow.Window.UpdateFgColor | src/mainwindow.cpp:486-494 | the window's foreground colour goes to every chart tab and the mode becomes 11 |
| MainWindow.Window.SelectColor | src/mainwindow.cpp:455-474 | a cancelled dialog changes nothing; a picked colour becomes the background or foreground colour and is pushed with mode 11 |
| MainWindow.Window.MenuModesAboutToShow | src/mainwindow.cpp:950-981 | an action is enabled iff its text is among the current chart's modes; the checked action becomes the first enabled one at or after the previously checked one (from the first when none was checked), or none |
| MainWindow.Window.UpdatePatternColors | src/mainwindow.cpp:1171-1203 | nothing changes without tabs; otherwise the list becomes the labelled colours in the corrected ascending order of added time (see Findings), tied colours kept |
| MainWindow.Window.RemoveTab | src/mainwindow.cpp:1133-1147 | a negative index changes nothing; with one tab the window closes and the tab stays; otherwise the tab at the index goes (an index past the end removes nothing) and the document is modified |
| Stitch.LowerChar | src/stitch.cpp:73 | ASCII capitals map to the small letter 32 code points higher, other characters stay |
| Stitch.Lower | src/stitch.cpp:73 | lower-cases each character, keeping the length |
| Stitch.IsSvgName | src/stitch.cpp:71-79 | an SVG name is at least as long as ".svg" |
| Stitch.IsSvgCaseInsensitive | src/stitch.cpp:71-79 | names that agree up to letter case are both SVG names or both not |
| Stitch.IsSvgSuffix | src/stitch.cpp:71-79 | a name ending in ".svg" or ".svgz" in any letter case is an SVG name; one ending in ".png" is not |
| Stitch.UpperCaseSuffixes | src/stitch.cpp:71-79 | ".SVG" and ".SvgZ" make SVG names |
| Stitch.Latin1 | src/stitch.cpp:63-67 | the Latin-1 bytes of a string, one per character |
| Stitch.Latin1Injective | src/stitch.cpp:63-67 | Latin-1 text converts without loss |
| Stitch.ReplaceAll | src/stitch.cpp:62-67 | replacing every non-overlapping occurrence of the pattern, left to right, by a replacement as long as the pattern keeps the data's length |
| Stitch.ReplaceAllSame | src/stitch.cpp:62-67 | replacing a pattern by itself changes nothing |
| Stitch.ReplaceAllAbsent | src/stitch.cpp:62-67 | data without the pattern is unchanged |
| Stitch.Recolored | src/stitch.cpp:62-67 | recolouring with a colour name as long as "#000000" keeps the icon's length |
| Stitch.Loaded | src/stitch.cpp:62-68 | a renderer holding the recoloured bytes, with the loader's validity and view box; black leaves the bytes as read |
| Stitch.RecoloredSpec | src/stitch.cpp:54-68 | recolouring in black is the identity (so the guard only skips work); data without black is unchanged; a seven-character colour keeps the length |
| Stitch.Stitch.IsSvg | src/stitch.cpp:71-79 | a stitch counts as SVG only when its file name is at least as long as ".svg" |
| Stitch.Stitch.constructor | src/stitch.cpp:16-22 | two empty, invalid renderers and no pixmap |
| Stitch.Stitch.SetupSvgFiles | src/stitch.cpp:46-69 | the primary renderer becomes Loaded with the primary colour and the alternate one Loaded with the alternate colour, both from the original bytes: data, validity and view box |
| Stitch.Stitch.SetFile | src/stitch.cpp:32-44 | the same file changes nothing; a new file is stored, an SVG file loads both renderers, and a file that is not SVG gets a decoded pixmap only while the primary renderer is invalid |
| Stitch.Stitch.ReloadIcon | src/stitch.cpp:106-109 | both renderers reload from the current file with the current colours: data, validity and view box |
| Stitch.Stitch.RenderPixmap | src/stitch.cpp:81-90 | the cached pixmap when it exists and is not null, otherwise a newly decoded one, which is cached |
| Stitch.Stitch.RenderSvg | src/stitch.cpp:92-104 | none when the file is not SVG or the primary renderer is invalid; the alternate renderer exactly when it is asked for and alternate colours are on; otherwise the primary one |
| Stitch.Stitch.Width | src/stitch.cpp:111-123 | the view-box width for SVG, else the pixmap's width (0 for a null pixmap), else 32 |
| Stitch.Stitch.Height | src/stitch.cpp:126-137 | the view-box height for SVG, else the pixmap's height (0 for a null pixmap), else 32 |
| Stitch.NewRasterStitch | src/stitch.cpp:16-137 | a new stitch given a raster file takes its size from the decoded pixmap |

## Left out

- Qt scene plumbing is not modelled: `addItem`/`removeItem`, signal connections, cell tool tips, `initDemoBackground`, the press and move handlers that delegate to the base scene class, and the base scene class's own release handling, which the release handler calls in every mode after its switch.
- The bodies of the AddCell, RemoveCell and SetCellStitch commands are not part of this model. A push is an appended record, and undo and redo are not modelled.
- Geometry is integer: the default cell size is a positive integer width and height. The ceiling of a quotient is integer ceiling division. SVG view boxes and pixmap sizes are integers.
- SceneRows.Scene.AddCell and SceneRows.Scene.AppendCell require a cell that is in the arena and not yet in the grid. The program always passes a newly created cell.
- SceneRows.Scene.AddCell and SceneRows.Scene.InsertIntoRow require 0 <= p.y <= row count, and SceneRows.Scene.AppendCell requires 0 <= row. The program indexes the row list at p.y without a check, so other rows have no defined outcome to model. A stitch-mode release above the chart, or more than one row below it, does push an AddCell command for such a row (SceneRows.ClickAboveChartRow shows row -1). The command's own body is not part of this model, so what it then does is not modelled.
- SceneRows.Scene.ColumnCount and SceneRows.Scene.Cell require non-negative indices. Qt asserts on a negative list index.
- SceneRows.Scene.MouseReleaseEvent compares the mode with 10 for stitch mode. The scene's mode enumeration is not part of this model.
- SceneRows.Scene.StitchModeMouseRelease requires a positive cell size. The program divides by it.
- The cell state a new cell starts with is a placeholder: null position and anchor, white, no stitch. The cell class is not part of this model.
- Undo-group activation, `documentIsModified` beyond the modified flag, file open/save/print/export, the updater, dialogs other than the colour dialog's result, icons, menus other than the mode group and the recent-files actions, and window geometry are not modelled.
- MainWindow.Window.SetupRecentFiles: file existence is a set of existing paths, and the menu is the list of actions.
- MainWindow.Window.NewChart: the chart's rows, columns, style and default stitch go to the tab's chart, which is not part of this model. The current-tab selection is left to Qt.
- MainWindow.Window.MenuModesAboutToShow takes the current chart's modes as a parameter: empty when the current tab is not a chart.
- MainWindow.Window.SelectStitch takes the stitch name the list index resolves to. Proxy-model mapping is Qt's.
- MainWindow.Window.SelectColor takes the dialog's result, None for a cancelled dialog. Colours are their "#rrggbb" names.
- MainWindow.Window.UpdatePatternColors takes the chart colours as (colour, added time) pairs in the order of their colour keys. Item icons are not modelled.
- MainWindow.Window.UpdatePatternColors lists the colours in the corrected order of "## Findings" (ByAdded): colours added at the same time all get an item, where the program keeps only the last of them (KeyedByAdded). Without such a tie both orders agree (KeyedByAddedAgrees).
- MainWindow.SortByAdded is the collecting loop in its corrected form: a stable insertion by added time that keeps tied colours, where the program's map insertion replaces them (KeyedInsert).
- MainWindow.Window.RemoveTab: closing the window is a flag. Whatever the close event does afterwards (asking to save) is not modelled.
- Stitch: file reading, SVG parsing and image decoding are functions of an Assets value. Settings are parameters. The renderer objects are values. A null pixmap has no size of its own; its width and height read as 0, as Qt gives them.
- Stitch.Lower lower-cases ASCII letters only. Unicode case mapping of other letters is not modelled.

## Findings

| source | as written | input that shows it | evidently intended | confidence | as-written member | corrected member |
|---|---|---|---|---|---|---|
| src/mainwindow.cpp:1182-1186 | the pattern colours are collected in a map keyed by their "added" time, so a second colour with the same time overwrites the first | colours "#000000" and "#ff0000" both added at time 5: only "#ff0000" is listed | every pattern colour is listed, in ascending order of added time | medium, not executed | MainWindow.KeyedByAddedDropsColor | MainWindow.ByAdded |
