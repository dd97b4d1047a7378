# Verification models

Dafny models of the hardest parts of this repository, with proofs about every input and every run. One
file models one component; the methods of the classes have the source's loops and assignments and are
proved against functions on values, and the theorems are lemmas about those functions.

| file | component |
|---|---|
| `LuaRequire.dfy` | Lua's `require`: a depth-first search coloured through the `_LOADED` table (section 5.3 of the Lua 5.1 Reference Manual) |
| `LuaIo.dfy` | the chunked readers of Lua's io library (section 5.7 of the same manual) |
| `DebugAllocator.dfy` | the PhysX debug allocator: slot table, block headers, counters, leak dump |
| `Matrix44.dfy`, `Quaternion.dfy`, `MatrixObject.dfy` | 4x4 matrices: products, inverses, the fast affine forms, quaternions; the object that overwrites its elements |
| `Vector3.dfy`, `Triangle.dfy`, `Reals.dfy` | vectors and the intersection of a line with a triangle |
| `FilterSet.dfy` | the condition-tree builder of the database layer |
| `DbWriter.dfy` | closing a `Db::Writer`: merging columns into a table, and how the rows are written |
| `LevelClock.dfy` | the fixed-step clock of a physics level and its callback protocol |
| `LockInPlace.dfy`, `PhysicsObjects.dfy` | composites, bodies and locked entities; shapes moving between two collide spaces |
| `Stamps.dfy` | area queries and explosions that share a stamp counter |
| `PhysicsMesh.dfy` | merging meshes with index rebasing |

Floats are exact reals; the square root is any function that returns a non-negative root. What ODE does to
bodies is an adversary: it may do anything to a body except move one that was and stays disabled. System
calls, the choices of the system allocator, the contacts ODE finds, the ids it hands out and what the
module loaders answer are parameters.

## What the proofs found

Where the code does not do what its documentation or names promise, the model follows the code, a lemma
gives the exact condition under which the promise holds, and it is listed here. Where the
model departs from the code, or says less, "Left out" has a line.

- A moving `realloc` stores the old address in the slot table (memoryallocator.cc:240), so the leak dump
  later reads through it: `DumpMeetsEveryBlock`, and `MovedBlockIsDumpedAtOldAddress` for two calls. It writes
  header words through a 32-bit pointer (memoryallocator.cc:228), which with 64-bit words breaks the
  back-index: `ReallocKeepsInvIff`, `BreaksIff` for runs, and `MovedBlockIsLost` for the same two calls.
- The scan for an empty slot reads a slot before it tests the bound (memoryallocator.cc:162). It reads behind
  the table exactly if no slot behind the cursor is empty, and what it reads there has no influence
  (`AdvanceFirstFree`, `ScanLeavesTable`).
- `Level::Trigger` makes steps of a constant size, but does not conserve simulated time. After a frame the
  simulated time is up to a step ahead, and a frame that comes earlier than that throws the overshoot away:
  frames shorter than half a step make one step in every two frames, however short they are
  (`ShortFramesRunFast`). The distances that are safe after whatever came before are exactly those from the
  step size to half a second (`PacedIff`); for frames of one distance from the start, also those short of a
  step by one n-th of it, and no others (`UniformFramesIff`).
- A locked entity watches only its first body (`Composite::IsEnabled`), so another body can be pushed away
  (`OthersInPlaceIff`, `PushedSecondBody`) and stays away while the first one sleeps (`LockLosesBody`).
- `m *= m` reads rows it has overwritten. It is the square exactly if the part of the matrix below the
  diagonal maps the difference of the square and the matrix to zero: `SelfProductIff`, `SelfProductFails`.
  `m.mult_simple(m)` also doubles a translation it has overwritten: `SimpleSelfProductIff`, `SimpleSelfProductFails`.
- `read_line` loses the rest of a chunk behind a NUL byte, and a newline there with it: `ReadLineIff`,
  `NulGluesLines`.
- `PhysicsMesh::AppendMesh` transforms vertex positions as `Math::vector`, whose w is 0, so a translation
  is dropped: `PlacedIff`.
- `Unload` leaves the mesh groups, so a merge into a mesh that was used before goes wrong twice. Indices are
  rebased by the vertex count of the first group (physicsmesh.cc:217; `MergeRightIff`), and the box update
  follows the counts of all groups (physicsmesh.cc:282-301). The update stays inside the buffers exactly if the
  first group began without indices, and at the beginning of the buffer if any are merged, every other group
  has none or is covered by what was merged, and every index names a vertex (`UpdateStaysInsideIff`). All of
  the merge is right exactly for the groups of `FitFor` (`WholeMergeRightIff`); no mesh whose first group has
  indices is among them (`MergeIntoUsedMesh`, `UsedTriangle`).
- `AppendMesh` takes the byte size of a vertex as a stride in floats (physicsmesh.cc:193, against line 295).
  The reads with that stride stay inside the source's buffer exactly if it has no vertices (`ReadsByByteSize`).
- The stamp counter is 32 bits wide. An object met before is missed exactly by the calls a multiple of 2^32
  after the last one that met it (`NextCallTakes`); an object never met is missed exactly by the calls whose
  number is a multiple of 2^32, however new it is (`NeverMetIsMissedIff`, `NewObjectMissed`).
- `SetInt`, `SetFloat` and `SetBool` mark a row as modified but not the table as having such rows
  (attributetable.h:506-565), and updates are sent only if the table reports some (sqlite3table.cc:478). Rows of
  a writer that lacks a column of its table are therefore dropped without an error unless the table has a
  primary column and the writer was opened with two columns or more, one of them of another type:
  `UpdatedIff`, `NumbersAreDropped`.
- The count test of `Writer::Close` (writer.cc:155) counts the columns there were when the writer was opened.
  With a column added later the rows do not count as new, even for a new table: `InsertedIff`,
  `LateColumnDropsRows`.
- `Table::HasUncommittedColumns` looks at the last column only; columns read from the database hide
  uncommitted ones: `LayoutHidesUncommitted`, `UncommittedColumnOverlooked`.
- A box extended from nothing starts at a million units, so it is the tightest one only if some point is
  nearer than that on every axis: `TightestIff`.

## Model

| member | source | states |
|---|---|---|
| LuaRequire.Require | code/morgue/loadlib.cc:449-492 | Nested requires end for every finite set of modules, also for modules that return false and are run again: a nested call has one sentinel more, the next call of a body less of the body left; a success leaves the sentinels as they were |
| LuaRequire.SucceedsIffNoDefectReachable | code/morgue/loadlib.cc:453-492 | require succeeds if and only if no chain of pending modules from the name ends in a sentinel, a missing module, a raising body, or itself; for every table, also one with sentinels of an earlier error |
| LuaRequire.SuccessfulRun | code/morgue/loadlib.cc:474-492 | The bodies a successful run finishes are exactly the pending modules reachable from the name, in topological order, each once unless it returns false; the value returned is the one stored |
| LuaRequire.FailureLeavesCallStack | code/morgue/loadlib.cc:454-457 | A failed run leaves new sentinels on exactly the modules still on the call stack, and requiring any of them again reports a loop and changes nothing |
| LuaRequire.FailureIsDefective | code/morgue/loadlib.cc:456-468 | The call stack at the error, with the module that could not be entered, is the defective chain |
| LuaRequire.BegunIsEndedPlusActive | code/morgue/loadlib.cc:479-482 | Every body entered is finished or on the call stack |
| LuaRequire.SecondRequireRunsNothing | code/morgue/loadlib.cc:454-459 | A second require runs nothing and gives the same value if and only if the module did not return false |
| LuaRequire.FindTells | code/morgue/loadlib.cc:460-478 | The first loader that gives neither a text nor some other value decides, by its function or by raising; if there is none, the error has the texts of all loaders in order |
| LuaRequire.ModulesYieldTheirValues | code/morgue/loadlib.cc:454-491 | Every finished module's slot holds the value its body returned, true if that was nil or the sentinel; other slots keep theirs; a successful require yields what the slot of the name holds |
| LuaRequire.ErrorsAreTrue | code/morgue/loadlib.cc:454-478 | A loop error names a module whose slot holds the sentinel, a loader error a pending module and what the loader search says of it, a raised error the innermost active body, which raises |
| LuaRequire.NeedsInOrder | code/morgue/loadlib.cc:479-482 | The modules a body needs are required in order: more needs go on with the table the earlier ones left, unless one of these failed |
| LuaRequire.LuaState.FindLoader | code/morgue/loadlib.cc:460-478 | The loader loop answers as the search does, which FindTells is about |
| LuaRequire.LuaState.LlRequire | code/morgue/loadlib.cc:449-492 | The table-mutating procedure has the status, the table and the run of Require; a module that was pending yields its own return value, true for nil and the sentinel, and a loaded one what it was |
| LuaRequire.LuaState.RunModule | code/morgue/loadlib.cc:479-491 | Marking, running and storing the result refines Require from the sentinel on |
| LuaIo.ReadLineIff | code/morgue/liolib.cc:275-295 | With any buffer size above 1, read_line returns the text up to the newline and moves past it if and only if that text has no NUL |
| LuaIo.NoNulInResult | code/morgue/liolib.cc:285-288 | No result ever has a NUL in it |
| LuaIo.NulGluesLines | code/morgue/liolib.cc:278-293 | A line with a NUL in a buffer that holds it: what is before the NUL goes on with the line after, and the rest is lost with the newline |
| LuaIo.LinesRoundTrip | code/morgue/liolib.cc:371-389 | For a file without NUL, the lines an io.lines loop yields, each with a newline, are the whole file, up to a missing newline at its end |
| LuaIo.LinesAreLines | code/morgue/liolib.cc:371-389 | For a file without NUL, none of these lines has a newline in it |
| LuaIo.OkConsumes | code/morgue/liolib.cc:275-295 | Every successful read_line takes something, so an io.lines loop ends |
| LuaIo.CharsSplit | code/morgue/liolib.cc:298-313 | Reading a and then b characters is reading a + b, cut at a |
| LuaIo.File.ReadLine | code/morgue/liolib.cc:275-295 | The fgets loop ends and leaves the file and the result of ReadLineLoop |
| LuaIo.File.ReadChars | code/morgue/liolib.cc:298-313 | With any buffer size the next n characters, or all there are, and the file is left behind them; it fails only at the end of the file with n > 0 |
| DebugAllocator.NextFreeIsEmpty | code/addons/physx/memoryallocator.cc:162-168 | As long as one slot is empty the wrap-around scan ends inside the table on an empty slot |
| DebugAllocator.InsertKeepsTable | code/addons/physx/memoryallocator.cc:146-169 | Inserting keeps the cursor on an empty slot and the use count equal to the non-empty slots; the table grows exactly when it would be full, and old entries stay |
| DebugAllocator.MallocKeepsInv | code/addons/physx/memoryallocator.cc:117-180 | malloc keeps slots in use and live blocks in bijection through header word 4 |
| DebugAllocator.FreeKeepsInv | code/addons/physx/memoryallocator.cc:307-338 | free keeps the bijection |
| DebugAllocator.ReallocKeepsInvIff | code/addons/physx/memoryallocator.cc:200-271 | realloc keeps the bijection if and only if the block stays in place or header words are 32 bits wide; its growth branch is never taken |
| DebugAllocator.StepIsTruthful | code/addons/physx/memoryallocator.cc:117-361 | Every call, but a moving realloc with words of other than 4 bytes, keeps the bijection and the books: byte and block counters relative to the last reset, high-water mark, and which slots hold a stale address |
| DebugAllocator.AfterCalls | code/addons/physx/memoryallocator.cc:64-361 | After any run of malloc, realloc, free and reset, null pointers among them, with words of any size: the bijection, bytes equal to the live sizes since the baseline, the mark the maximum since reset, and a slot stale exactly if its block was moved; or a call has broken the bijection |
| DebugAllocator.BreaksIff | code/addons/physx/memoryallocator.cc:228-267 | A run of allowed calls breaks the bijection if and only if words have other than 4 bytes and some realloc moved its block |
| DebugAllocator.HeadersTell | code/addons/physx/memoryallocator.cc:117-271 | After any run every live block's header holds the marker, the size last asked for, and file, line and class of its allocation, or zeros there once it moved |
| DebugAllocator.CallsAreCounted | code/addons/physx/memoryallocator.cc:117-361 | After any run the two counters no reset touches are the numbers of allocations and of reallocs among the calls |
| DebugAllocator.UsedSlotsAscend | code/addons/physx/memoryallocator.cc:47-50 | The slots the dump stops at are all non-empty slots, in ascending order, each once |
| DebugAllocator.DumpMeetsEveryBlock | code/addons/physx/memoryallocator.cc:42-56 | After any run the dump meets every live block's slot exactly once, and reads through the blocks' own addresses if and only if no live block was ever moved |
| DebugAllocator.MovedBlockIsDumpedAtOldAddress | code/addons/physx/memoryallocator.cc:240-240 | One block allocated and moved: the dump reads through its old address |
| DebugAllocator.ScanLeavesTable | code/addons/physx/memoryallocator.cc:162-168 | 63 allocations, the first block freed, one more allocation: the scan reads behind the table and ends on slot 0 |
| DebugAllocator.MovedBlockIsLost | code/addons/physx/memoryallocator.cc:228-267 | One block allocated and moved, with words of other than 4 bytes: the bijection is broken |
| DebugAllocator.MemoryAllocator.AdvanceFirstFree | code/addons/physx/memoryallocator.cc:162-168 | The two scanning loops end on the next empty slot, wrapping around, whatever lies behind the table; the first one reads behind it if and only if no slot after the cursor is empty |
| DebugAllocator.MemoryAllocator.InsertBlock | code/addons/physx/memoryallocator.cc:146-169 | Slot, count, growth and cursor are those of Insert |
| DebugAllocator.MemoryAllocator.MallocDebug | code/addons/physx/memoryallocator.cc:117-180 | Refines MallocSpec and keeps the invariant; NULL and no change for zero bytes |
| DebugAllocator.MemoryAllocator.Realloc | code/addons/physx/memoryallocator.cc:182-271 | Refines ReallocSpec with the code's own stores, and never replaces the table |
| DebugAllocator.MemoryAllocator.Free | code/addons/physx/memoryallocator.cc:307-361 | Refines FreeSpec and keeps the invariant |
| DebugAllocator.MemoryAllocator.DumpLeaks | code/addons/physx/memoryallocator.cc:42-56 | The nested loop stays in bounds and lists exactly the used slots |
| Matrices.MulAssoc | code/morgue/_matrix44.h:819-844 | The product is associative |
| Matrices.MulElement | code/morgue/_matrix44.h:819-844 | Element i, j of a product is row i of the left factor times column j of the right one |
| Matrices.TwoSidedInverse | code/morgue/_matrix44.h:361-382 | The sixteen factors over a non-zero determinant are a left and a right inverse |
| Matrices.InverseIff | code/morgue/_matrix44.h:343-382 | invert yields a two-sided inverse if the determinant is not zero; if it is zero the matrix is unchanged and has no right inverse at all |
| Matrices.AffineProduct | code/morgue/_matrix44.h:414-441 | On affine matrices mult_simple equals operator*= and the product is affine |
| Matrices.AffineInverse | code/morgue/_matrix44.h:391-412 | On affine matrices invert_simple equals invert and the result is affine |
| Matrices.SelfProductIff | code/morgue/_matrix44.h:735-749 | A matrix multiplied in place by itself is its square if and only if its part below the diagonal maps the difference of the square and the matrix to zero |
| Matrices.SelfProductFails | code/morgue/_matrix44.h:735-749 | Exchanging two axes twice in place loses one of them |
| Matrices.SimpleSelfProductIff | code/morgue/_matrix44.h:414-441 | For affine matrices mult_simple of a matrix by itself is the square if and only if the second and third row of its part below the diagonal map the difference of the square and the matrix to zero and its translation, moved by the square's rows and doubled, is the square's |
| Matrices.SimpleSelfProductFails | code/morgue/_matrix44.h:414-441 | Scaling by 2 with a translation by 1: the square moves by 3, mult_simple in place by 8 |
| Quaternions.PivotAtLeastOne | code/morgue/_matrix44.h:202-242 | For every matrix the number under the root in the branch taken is at least 1, so no branch divides by zero |
| Quaternions.UnitRoundTrip | code/morgue/_matrix44.h:180-242 | For every unit quaternion, converting to a matrix and back gives it or its negative, through any of the four branches |
| Quaternions.RotationRoundTrip | code/morgue/_matrix44.h:180-242 | For every rotation, get_quaternion yields a unit quaternion whose matrix is that rotation |
| Quaternions.MatrixTurnsVectors | code/morgue/_matrix44.h:180-200 | For every unit quaternion q, a row vector v times its matrix is q v q*, with Hamilton's product |
| MatrixObjects.Matrix44.MulAssign | code/morgue/_matrix44.h:735-749 | The row loop overwrites the matrix with the product; with itself as operand, with what later rows make of the new ones |
| MatrixObjects.Matrix44.MultSimple | code/morgue/_matrix44.h:414-441 | In place the same as MulSimple, so by AffineProduct the full product on affine matrices; with itself as operand, MulSimpleSelf, which SimpleSelfProductIff is about; affine afterwards in any case |
| MatrixObjects.Matrix44.Invert | code/morgue/_matrix44.h:361-382 | In place: the inverse on both sides if there is one, else nothing |
| MatrixObjects.Matrix44.InvertSimple | code/morgue/_matrix44.h:391-412 | In place: the full inverse on affine matrices; for any matrix with a non-zero determinant an affine one, else nothing |
| MatrixObjects.Matrix44.GetQuaternion | code/morgue/_matrix44.h:202-242 | The index arithmetic of the branches computes ToQuaternion |
| Vectors.CrossCross | code/morgue/_vector3.h:325-341 | The triple product of the vector operators |
| Vectors.CrossOfAxes | code/morgue/_vector3.h:325-341 | The products with the three axes: the right-handed cross product |
| Triangles.Coordinates | code/morgue/triangle.h:102-112 | For a point in the plane, fS0 and fS1 are its coordinates along the edges times fDet |
| Triangles.DeterminantIsSquare | code/morgue/triangle.h:107-107 | fDet is the squared length of the normal |
| Triangles.HitMeets | code/morgue/triangle.h:91-121 | A reported t is a point of the line and of the triangle's plane with coordinates fS0/fDet, fS1/fDet within the tolerances, and fDet > 0 |
| Triangles.IntersectIff | code/morgue/triangle.h:73-123 | intersect answers t if and only if the line's direction against the normal e0 x e1 is below -0.0001 and it meets the triangle at t within the tolerances of 0.0001 |
| Triangles.BothSidesIff | code/morgue/triangle.h:129-179 | intersect_both_sides answers t if and only if the line is not too parallel, by the squared test with 0.0001, and meets the triangle at t within the tolerances |
| Triangles.ExactHitIsReported | code/morgue/triangle.h:73-123 | Every exact hit of the front face within segment and triangle is reported, with its t |
| Triangles.HitFromTheFront | code/morgue/triangle.h:84-97 | A line answered at a positive t begins on the side the normal points to |
| Triangles.HitFromAbove | code/morgue/triangle.h:73-123 | A line down on a triangle whose normal points up is answered, one up from below is not |
| Triangles.FlippingTriangle | code/morgue/triangle.h:84-85 | Turning the triangle round changes no answer of intersect_both_sides, and no line hits both faces |
| FilterSets.BuildIsFaithful | code/addons/db/filterset.cc:36-192 | For every accepted sequence of calls, writing down tree and cursor gives the calls back, the bind list is the left-to-right list of compared attributes, and every closed block is non-empty without dangling connectives |
| FilterSets.BuildIsInjective | code/addons/db/filterset.cc:36-192 | Tree and cursor determine the calls made |
| FilterSets.AcceptedNext | code/addons/db/filterset.cc:66-80 | Which calls may follow, by the calls alone: EndBlock exactly if a bracket is open, something follows it, and no connective dangles at either end |
| FilterSets.AndChainShape | code/addons/db/reader.cc:58-67 | The chain has the n checks at even places and n - 1 connectives between them |
| FilterSets.FilterSet.AddToken | code/addons/db/filterset.cc:87-192 | A node with the token is the cursor's new last child and the cursor stays; the attribute of a check is bound; refines Step |
| FilterSets.FilterSet.BeginBlock | code/addons/db/filterset.cc:51-58 | A new block node is the old cursor's last child and the new cursor; refines Step |
| FilterSets.FilterSet.EndBlock | code/addons/db/filterset.cc:66-80 | The cursor goes up the rightmost spine; refused exactly where an assertion of the source fails, with nothing changed |
| FilterSets.FilterSet.Clear | code/addons/db/filterset.cc:36-43 | Back to the empty filter, whatever was open |
| FilterSets.FilterSet.AddAndChain | code/addons/db/reader.cc:58-67 | The loop of Reader::Open builds the AND chain of the filter attributes and binds them in order |
| DbWriter.ExtendIsAppend | code/addons/db/writer.cc:134-142 | The old columns stay as a prefix; what follows are the writer's missing columns in its order |
| DbWriter.ExtendAttrs | code/addons/db/writer.cc:134-142 | The extended table has the union of the columns, none twice |
| DbWriter.ExtendTwice | code/addons/db/writer.cc:134-142 | Closing again adds nothing |
| DbWriter.FewerIff | code/addons/db/writer.cc:155-155 | The writer has fewer columns than the extended table if and only if the table has a column the writer lacks |
| DbWriter.InsertedIff | code/addons/db/writer.cc:150-158 | Rows are inserted if and only if no column was added after opening and the writer has all columns the table had before |
| DbWriter.UpdatedIff | code/addons/db/sqlite3/sqlite3table.cc:443-483 | Rows not inserted are updated if and only if the table has a primary column, old or new, and the writer was opened with at least two columns, one of a type whose setter marks the table |
| DbWriter.NumbersAreDropped | code/foundation/attr/attributetable.h:506-565 | The rows of a writer of an int key and a float, for a table with one more column, are sent in no way |
| DbWriter.LateColumnDropsRows | code/addons/db/writer.cc:155-158 | A column added after opening loses all rows, even with a new table |
| DbWriter.LastTells | code/addons/db/table.cc:173-187 | On a committed table extended by a writer, looking at the last column tells exactly whether a column is uncommitted, that is, whether one was missing |
| DbWriter.LayoutHidesUncommitted | code/addons/db/sqlite3/sqlite3table.cc:228-260 | After reading the database's layout an uncommitted column is found if and only if the database brought no column of its own |
| DbWriter.UncommittedColumnOverlooked | code/addons/db/table.cc:173-187 | An uncommitted column followed by one found in the database is not noticed |
| DbWriter.Table.AddColumn | code/addons/db/table.cc:56-66 | Appends, and keeps all three index maps and the primary index in agreement with the columns |
| DbWriter.Writer.AddColumn | code/addons/db/writer.h:107-113 | Appends a column the writer does not have, and keeps array and map in agreement |
| DbWriter.Writer.Open | code/addons/db/writer.cc:43-58 | The value table gets the writer's columns |
| DbWriter.Writer.OpenFromValueTable | code/addons/db/writer.cc:65-98 | The writer is extended by the source's missing columns; every row of the source is there with its values, and defaults in the other columns |
| DbWriter.ValueTable.Set | code/foundation/attr/attributetable.h:506-710 | The cell is set and its row marked as modified; the table is marked only for the types other than int, float and bool |
| DbWriter.ValueTable.AddRow | code/foundation/attr/attributetable.cc:685-709 | A new row of defaults, marked as the setters of its columns mark it |
| DbWriter.ValueTable.CopyExtRow | code/foundation/attr/attributetable.cc:594-655 | A new row with the other row's values where the columns are the same, defaults elsewhere |
| DbWriter.Writer.BeginRow | code/addons/db/writer.cc:175-182 | A new row of defaults is the current one |
| DbWriter.Writer.SetValue | code/addons/db/writer.h:128-205 | One cell of the current row, and nothing else |
| DbWriter.Writer.UpdateColumns | code/addons/db/writer.cc:134-142 | The loop extends the table, with names and fourCCs free for every column it adds |
| DbWriter.Database.CommitRows | code/addons/db/sqlite3/sqlite3table.cc:430-483 | New rows are sent as inserts in order; then the other modified ones as updates, if there is a primary column, the value table reports modified rows, and it has another column |
| DbWriter.Writer.Close | code/addons/db/writer.cc:105-169 | The table, found or created, has its old columns and the missing ones, all committed, a new or flushed one just the writer's; other tables are untouched; the rows are sent in order with their values in the way FateOf says, as new ones exactly under the condition of InsertedIff, or none is |
| LevelClock.CeilIff | code/addons/physics/level.cc:491-532 | The number of steps is the one that reaches the lag without overshooting by a whole step |
| LevelClock.CaughtUp | code/addons/physics/level.cc:454-532 | After every Trigger time <= simTimeStamp < time + stepSize |
| LevelClock.WholeStepsIff | code/addons/physics/level.cc:456-464 | Simulated time advances by whole steps if and only if the lag was from 0 to 0.5; otherwise it jumps and no step is made |
| LevelClock.SimStepsBound | code/addons/physics/level.cc:491-491 | simSteps is the number of steps made, or one less; equal exactly if the lag is a whole number of steps |
| LevelClock.TimeIsStepsAndJumps | code/addons/physics/level.cc:451-532 | Over any run of frames simulated time is the steps made plus the jumps |
| LevelClock.StepsOfRun | code/addons/physics/level.cc:451-532 | The number of steps of any run depends only on its first and last time and the jumps |
| LevelClock.FrameRateDoesNotMatter | code/addons/physics/level.cc:441-449 | Frames between a step and half a second apart make the steps of one Trigger over the whole time |
| LevelClock.PacedIff | code/addons/physics/level.cc:456-464 | A frame distance never makes the clock jump, whatever a frame left, if and only if it is from the step size to half a second |
| LevelClock.ShortFramesRunFast | code/addons/physics/level.cc:456-464 | Frames shorter than half a step make n steps in 2n frames, however short they are |
| LevelClock.UniformFramesIff | code/addons/physics/level.cc:456-464 | Frames of one distance from the start never make the clock jump if and only if the distance is at most half a second and at least a step, or short of a step by one n-th of it |
| LevelClock.SeenInRounds | code/addons/physics/level.cc:466-562 | Every attached entity sees exactly the calls of the rounds, in order, and no other entity any |
| LevelClock.NoneAhead | code/addons/physics/level.cc:495-528 | Wherever the trace is cut, no entity is more than one call ahead of another |
| LevelClock.FrameCallsAt | code/addons/physics/level.cc:466-562 | The calls of a frame with k steps are 2 k + 2: one before, one after, and in between StepBefore and StepAfter in turn |
| LevelClock.RoundsAt | code/addons/physics/level.cc:466-562 | With n entities, event j n + i of a trace is call j of entity i |
| LevelClock.Level.Trigger | code/addons/physics/level.cc:451-562 | The loop ends; simSteps is the step count k or one less, and the callbacks are those of FrameCalls(k), in rounds over all entities; for a lag from 0 to 0.5 the clock advances by k steps, for any other it is set to the time and no step is made |
| LevelClock.Level.AttachEntity | code/addons/physics/level.cc:233-245 | No entity is in the array twice |
| LevelClock.Level.RemoveEntity | code/addons/physics/level.cc:254-266 | The entity is gone, the others keep their order |
| LockInPlace.OdeRoundTrip | code/addons/physics/physicsserver.h:259-279 | The conversions to and from ODE are inverse: always for poses, for matrices if and only if the rows end in zero and the last element is kept |
| LockInPlace.OdeMovesPoints | code/addons/physics/physicsserver.h:259-279 | A column vector turned and moved by ODE's numbers is the row vector times the matrix |
| LockInPlace.OffsetsCancel | code/addons/physics/composite.cc:387-389 | Composite transform and first body transform determine each other |
| LockInPlace.PlaceSyncs | code/addons/physics/composite.cc:495-530 | Setting the transform puts the first body where the transform says |
| LockInPlace.ReadSyncs | code/addons/physics/composite.cc:371-391 | Reading the bodies back gives a transform in agreement with them, whatever the simulator did |
| LockInPlace.ReadUnmoved | code/addons/physics/composite.cc:371-391 | If the first body has not moved, the transform read back is the old one |
| LockInPlace.LockEstablishes | code/addons/physics/physicsentity.cc:322-332 | Lock establishes the invariant from any composite in agreement |
| LockInPlace.LockedStep | code/addons/physics/physicsentity.cc:222-240 | A step keeps the invariant, whatever the simulator moves or enables |
| LockInPlace.LockHolds | code/addons/physics/physicsentity.cc:222-240 | After any number of steps of any simulator the composite's transform is the locked one |
| LockInPlace.OthersInPlaceIff | code/addons/physics/physicsentity.cc:232-239 | After a step all bodies are in place if and only if the first one was enabled or none had been moved |
| LockInPlace.FirstBodyDecides | code/addons/physics/physicsentity.cc:222-240 | After a step, every body is at offset times locked transform and disabled if the first one was enabled; else it is, and reads, what the simulator left |
| LockInPlace.OthersStayMoved | code/addons/physics/physicsentity.cc:232-239 | Over any run that leaves the first body disabled, every body is where the simulator put it last |
| LockInPlace.LockLosesBody | code/addons/physics/physicsentity.cc:232-239 | A body once out of place beside a sleeping first one stays out of place for any number of quiet steps, while the entity has its locked transform |
| LockInPlace.PushedSecondBody | code/addons/physics/physicsentity.cc:232-239 | Such a step of a locked composite of two bodies |
| PhysicsObjects.Shape.AttachToSpace | code/addons/physics/shape.cc:70-76 | The shape's id names the one space its geom is in, for all shapes |
| PhysicsObjects.Shape.RemoveFromSpace | code/addons/physics/shape.cc:84-90 | Same, with no space |
| PhysicsObjects.Shape.Attach | code/addons/physics/shape.cc:140-180 | A new geom no other shape has, in the given space |
| PhysicsObjects.Shape.Detach | code/addons/physics/shape.cc:108-115 | The geom is gone from every space |
| PhysicsObjects.RigidBody.OnStepBefore | code/addons/physics/rigidbody.cc:261-303 | Afterwards all shapes of an enabled body are in the dynamic space, all of a disabled one in the static space, still one space each |
| PhysicsObjects.RigidBody.OnStepAfter | code/addons/physics/rigidbody.cc:310-322 | The body reads the simulator's pose |
| PhysicsObjects.RigidBody.Attach | code/addons/physics/rigidbody.cc:99-131 | All shapes in the given space, the pose that of the matrix |
| PhysicsObjects.Composite.Attach | code/addons/physics/composite.cc:243-304 | All bodies placed and their shapes in the dynamic space, static shapes in the static space |
| PhysicsObjects.Composite.Detach | code/addons/physics/composite.cc:311-346 | All shapes of the composite are out of every space |
| PhysicsObjects.Composite.OnStepBefore | code/addons/physics/composite.cc:354-365 | For an attached composite the shapes of every enabled body are in the dynamic space, those of every disabled one in the static space |
| PhysicsObjects.Composite.OnStepAfter | code/addons/physics/composite.cc:372-391 | The loop and the master body give Read: every body's transform is its pose, the composite's that of the first body without its offset |
| PhysicsObjects.Composite.SetTransform | code/addons/physics/composite.cc:495-530 | An attached composite is placed with all its bodies, each at its offset times the transform; otherwise only the transform changes |
| PhysicsObjects.Composite.SetEnabled | code/addons/physics/composite.cc:462-470 | All bodies, and nothing else |
| PhysicsObjects.Do | code/addons/physics/composite.cc:243-365 | A call to one composite keeps all shapes in the spaces their ids name, and the composite's shapes in spaces exactly while it is attached; a step begins with enabled bodies in the dynamic and disabled ones in the static space |
| PhysicsObjects.Run | code/addons/physics/composite.cc:243-365 | So does any run of attach, step, simulator and detach calls to several composites |
| PhysicsObjects.PhysicsEntity.SetTransform | code/addons/physics/physicsentity.cc:142-149 | Entity and composite agree on the new transform |
| PhysicsObjects.PhysicsEntity.SetComposite | code/addons/physics/physicsentity.cc:356-366 | The composite takes over the entity's transform, and is disabled if the entity is locked |
| PhysicsObjects.PhysicsEntity.Lock | code/addons/physics/physicsentity.cc:323-332 | Keeps the transform, and establishes the lock's invariant from a composite in agreement |
| PhysicsObjects.PhysicsEntity.Unlock | code/addons/physics/physicsentity.cc:343-349 | Back where it was locked |
| PhysicsObjects.PhysicsEntity.OnStepAfter | code/addons/physics/physicsentity.cc:223-240 | Read for an unlocked entity, LockedStepAfter for a locked one |
| PhysicsObjects.PhysicsEntity.LockedStep | code/addons/physics/physicsentity.cc:223-240 | The objects themselves stay locked over a step of any simulator |
| Stamps.WalkTakes | code/addons/physics/physicsserver.cc:597-610 | Taken are exactly the first contacts with objects that did not hold the stamp, in order |
| Stamps.WalkStamps | code/addons/physics/physicsserver.cc:600-609 | Every object met holds the stamp afterwards, every other one what it held |
| Stamps.TakenOnce | code/addons/physics/physicsserver.cc:600-609 | No object is taken twice |
| Stamps.StampsAreLastMet | code/addons/physics/physicsserver.h:201-204 | Over any interleaving of queries and explosions each object holds the number of the last call that met it, modulo 2^32 |
| Stamps.NextCallTakes | code/addons/physics/physicsserver.cc:648-661 | A call takes a contact if and only if it is the first with its object and the number of calls since the object was met, or since the beginning if it never was, is no multiple of 2^32 |
| Stamps.NeverMetIsMissedIff | code/addons/physics/physicsserver.h:201-204 | An object never met is missed exactly by the calls whose number is a multiple of 2^32 |
| Stamps.NewObjectMissed | code/addons/physics/physicsserver.h:201-204 | An object created just before call number 2^32 is missed by it |
| Stamps.NextCallCompleteIff | code/addons/physics/physicsserver.cc:648-661 | The answer is complete if and only if no object met has such an age |
| Stamps.CompleteBeforeWrap | code/addons/physics/physicsserver.cc:597-610 | Short of 2^32 calls every answer is the distinct objects in first-occurrence order |
| Stamps.PushedOnce | code/addons/physics/explosionareaimpulse.cc:54-67 | No body gets two impulses from one explosion |
| Stamps.PhysicsServer.GetEntities | code/addons/physics/physicsserver.cc:580-611 | Appends the object of every contact taken, in order, returns their number, and stays in step with the history |
| Stamps.PhysicsServer.Apply | code/addons/physics/explosionareaimpulse.cc:37-67 | For every contact taken, in order, an impulse on its body at its position; stays in step with the history |
| PhysicsMeshes.MergeDrawsAll | code/addons/physics/physicsmesh.cc:188-228 | Merged from nothing, the mesh draws all triangles of its parts, transformed and in order, with all indices in range |
| PhysicsMeshes.MergedCorner | code/addons/physics/physicsmesh.cc:188-228 | Corner j of part i is in the merge behind the corners of the parts before: the vertex its index names, as a row with w = 0, times the part's matrix |
| PhysicsMeshes.MergeBehind | code/addons/physics/physicsmesh.cc:217-221 | With vertices left in the first group every index is too large by their number; the cursors are the sums of the source counts |
| PhysicsMeshes.MergeRightIff | code/addons/physics/physicsmesh.cc:217-221 | Vertices and indices of the merge are the right ones if and only if the first group had no vertices or no index is merged |
| PhysicsMeshes.LeftoverGroupBreaksMerge | code/addons/physics/physicsmesh.cc:217-221 | One vertex left over: the index of a mesh of one vertex names none |
| PhysicsMeshes.UpdateStaysInsideIff | code/addons/physics/physicsmesh.cc:282-301 | For all groups a mesh begins with: the box update of an append reads inside the buffers, whatever the unwritten part of the index buffer holds, if and only if the first group began without indices (and at the beginning of the buffer if any are merged), every other group has none or is covered by the merged ones, and every merged index names a vertex |
| PhysicsMeshes.WholeMergeRightIff | code/addons/physics/physicsmesh.cc:188-228 | Every update of a merge stays inside the buffers and the merged mesh is the right one if and only if the first group began with nothing (without indices, if none is merged) and every other one has no indices or is covered by those of the first mesh appended |
| PhysicsMeshes.UsedTriangle | code/addons/physics/physicsmesh.cc:106-228 | Loaded with a triangle, unloaded, merged with a triangle: the indices are 3, 4, 5 of 3 vertices, and the update leaves the buffers |
| PhysicsMeshes.MergeIntoUsedMesh | code/addons/physics/physicsmesh.cc:106-228 | Unload, BeginAppendMesh, AppendMesh on a mesh whose first group has indices, with any source: the update leaves the buffers |
| PhysicsMeshes.AppendDrawsBoth | code/addons/physics/physicsmesh.cc:213-222 | Rebasing keeps every index on the vertex it named |
| PhysicsMeshes.PlacedIff | code/addons/physics/physicsmesh.cc:197-198 | Vertices land where the matrix puts points if and only if it has no translation or there are none |
| PhysicsMeshes.MovedIsProduct | code/addons/physics/physicsmesh.cc:197-198 | A vector is moved as a row with w = 0 times the matrix, a point as one with w = 1 |
| PhysicsMeshes.MovedTwice | code/addons/physics/physicsmesh.cc:197-198 | Moving by one affine matrix and then by another is moving by their product, for vectors and for points |
| PhysicsMeshes.GroupBoxHolds | code/addons/physics/physicsmesh.cc:282-301 | The box of a group encloses every vertex an index of the group names |
| PhysicsMeshes.TightestIff | code/foundation/math/bbox.h:175-206 | The extended box encloses all points, and is the tightest one if and only if on every axis some point is within a million units from either side |
| PhysicsMeshes.PhysicsMesh.BeginAppendMesh | code/addons/physics/physicsmesh.cc:128-159 | New buffers, and one group behind those left over |
| PhysicsMeshes.PhysicsMesh.AppendMesh | code/addons/physics/physicsmesh.cc:188-228 | The buffers hold the merge with one part more, behind whatever the first group began with; for any groups, sources and buffer contents the box update stays inside the buffers if and only if UpdateReads, and StaysInside once the index buffer is full; from nothing, the box is that of all corners |
| PhysicsMeshes.PhysicsMesh.CopyMesh | code/addons/physics/physicsmesh.cc:191-225 | Vertices, indices, cursors and the counts of the first group, for any groups |
| PhysicsMeshes.PhysicsMesh.CopyVertices | code/addons/physics/physicsmesh.cc:191-210 | The loop leaves the floats before and appends, three by three, each source vertex as a row with w = 0 times the matrix |
| PhysicsMeshes.PhysicsMesh.CopyIndices | code/addons/physics/physicsmesh.cc:214-221 | The loop appends every source index plus the first group's vertex count, and leaves those before |
| PhysicsMeshes.PhysicsMesh.UpdateGroupBoundingBoxes | code/addons/physics/physicsmesh.cc:282-301 | It stays inside the buffers if and only if every group's indices and the vertices they name are there; then every group's box is that of those vertices |
| PhysicsMeshes.PhysicsMesh.ReadsByByteSize | code/addons/physics/physicsmesh.cc:193-210 | With the byte size as stride the loop reads inside the source's vertices if and only if there are none |
| PhysicsMeshes.PhysicsMesh.EndAppendMesh | code/addons/physics/physicsmesh.cc:166-181 | With full buffers the mesh is the merge, with the right vertices and indices if and only if the first group began without vertices or there are no indices; from nothing, its indices are in range and its box is that of all corners |
| PhysicsMeshes.PhysicsMesh.Load | code/addons/physics/physicsmesh.cc:85-91 | The file's groups replace all others; if what they name is there, each gets the box of the vertices its indices name |

## Left out

- Float rounding, `NaN` and infinities: all arithmetic is over exact reals, and `float` constants are the decimal numbers written.
- ODE, OPCODE and PhysX themselves. ODE normalises the rotation it is given; the model keeps it as given. Joints, masses, velocities, damping and impulse strengths are not modelled, so Reset and the joint loops are absent.
- LuaRequire.Require: module bodies are a finite list of nested requires and an outcome; bodies that edit `_LOADED` or `package.loaders` themselves, `pcall` inside a body, metatables and the stack discipline of the C API are not part of the model. Loaders are functions of the name.
- LuaIo.File.ReadLine: requires a buffer size above 1 (with 1 the loop of the source does not end); read errors and read_number are not part of the model.
- DebugAllocator.AfterCalls: says nothing of a run once a moving realloc has broken the back-index of 64-bit words. Counters do not wrap around, the system allocator does not fail, and the lock makes calls atomic. The release build is left out.
- FilterSets.Call: the token for an inequality check has no method that adds it. SQL generation from the tree is left out.
- DbWriter.Writer.Close: the SQL text and the transactions are left out; a statement is a row with its values and the way it is sent. Attribute ids are registered with distinct names and fourCCs. A value table without columns is not told apart from others.
- DbWriter.Writer.UpdateTable: the assertion of the SQLite table that a primary column cannot be added to an existing table is a precondition.
- DbWriter.Database.CommitRows: the assertion that updates find the primary column among the writer's is a precondition, where the source reaches it.
- DbWriter.ValueTable.Set: one method stands for the eight typed setters; the type is that of the attribute. Rows are never deleted by a writer, and tracking of modifications is on, as the constructor leaves it.
- LevelClock.Level.Trigger: requires a positive step size, without which the source's loop does not end. Entities attached or removed by a callback during a frame, collision and the ODE step are left out, and the conversion of simSteps to int does not overflow.
- LevelClock.Level.AttachEntity: the entity's own OnActivate and OnAttachedToLevel are left out.
- LevelClock.Level.RemoveEntity: the entity's own OnRemovedFromLevel and OnDeactivate are left out.
- LockInPlace.Affine44: offsets of bodies must be affine and invertible, as the documentation of SetTransform restricts them to translation and rotation. Nobody else sets the transform during a run.
- PhysicsObjects.Shape.Attach: geom creation of the concrete shape classes is one counter and does not fail; the ODE proxy geom, collide bits and the mass are left out. Shapes attached to a level directly follow the same methods.
- PhysicsObjects.RigidBody.Attach: the mass is left out.
- PhysicsObjects.RigidBody.OnStepBefore: the damping of an enabled body changes its velocity only, and is left out.
- PhysicsObjects.Composite.Attach: joints and the transforms of the static shapes are left out.
- PhysicsObjects.Composite.Detach: joints are left out, and the local collide space, which no code of the class creates.
- PhysicsObjects.Composite.SetTransform: joints and the transforms of the static shapes are left out.
- PhysicsObjects.PhysicsEntity.Unlock: the reset of velocities and forces is left out.
- Stamps.PhysicsServer.Apply: the strength of the impulses and their attenuation are left out.
- Stamps.PhysicsServer.GetEntities: begins with the contacts; the collision that finds them, which resets the contact array itself (code/addons/physics/shape.cc:345-352), is a parameter. The box query has the same loop.
- PhysicsMeshes.PhysicsMesh.CopyVertices: the stride is three floats, as line 295 has it, where line 193 uses the byte size; vertices have a position only, as BeginAppendMesh lays them out.
- PhysicsMeshes.PhysicsMesh.AppendMesh: requires room in the buffers for the source's vertices and indices, which its caller reserves. The pointer getters accept an open append, where the source's assert `isLoaded`.
- PhysicsMeshes.PhysicsMesh.UpdateGroupBoundingBoxes: ends before the first read outside the buffers; what the source computes from such a read is not modelled.
- Quaternion from Euler angles, polar coordinates, look-at and projection matrices, `_matrix33.h`, file loading, rendering and the game features: easier or I/O.
