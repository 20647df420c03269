# Pure-logic cores of the abcg demo windows, in Dafny

The repository is a set of small OpenGL/ImGui demo windows. Four pieces of
them hold logic that does not depend on the GPU, the UI toolkit or floating
point. Each piece is one Dafny module:

- `TicTacToe` (`tictactoe.dfy`) models the tic-tac-toe window of
  `examples/firstapp`. The game state is a nine-cell board plus the move
  counter `numVez`, and the module covers turn selection, marking, reset,
  the eight-line win test, the status line, and the click guard of
  `paintUI`. The file-scope variables of the source become one immutable
  `Game` value.
- `MeshLoader` (`mesh_loader.dfy`) models the vertex deduplication in
  `loadModelFromFile` of `examples/screensaverxicara`. The loader walks
  shapes, faces and face vertices. It reads each position from the flat
  coordinate table and keeps one map from vertex to index for the whole
  traversal. The module also models the structure of `standardize`.
  Coordinates are an abstract type with equality. Each vertex carries only
  its position (every other field is value-initialised), so vertex equality
  is position equality; the hash also reads only the position.
- `CupAnimation` (`cup_animation.dfy`) models the `n_trig` ping-pong
  counter in the `paintUI` of the same window.
- `CameraKeys` (`camera_keys.dfy`) models the key-down/key-up speed
  transitions in `handleEvent` of `examples/planettour` and
  `examples/viewer4`. The two handlers are the same text, so they are
  modelled once. The speeds are floats in the source but only ever hold
  -1, 0 and 1, so they are integers here.

Each module ties its operations to a definition that does not repeat
them:

- `Click` keeps the game invariant `Valid`, and `HasWinner` agrees with
  the `Lines` table.
- `Load` produces `Dedup` of the references, and `LoadModel` computes
  `Load`.
- `Step` keeps the cup inside the `Bouncing` band.
- `HandleEvent` agrees with the key-binding table `ByBinding`.

Two facts about the loader code shape the model:

- The code bound-checks none of its reads: `attrib.vertices[3*i+k]` and
  `shape.mesh.indices[...]` are read unchecked, and `3*i` is computed in
  32-bit `int` before it is widened. So `ValidInput`, which keeps every read
  inside the table and `3*i` below 2^31, is a precondition.
- `indexOffset` restarts at zero for every shape, while one map serves all
  shapes. `AddShape` and `LoadModel` do the same.

## Model

| member | source | states |
|---|---|---|
| TicTacToe.Turn | examples/firstapp/openglwindow.cpp:23-26 | The mark to play is always X or O: X exactly when the counter is even, O exactly when it is odd. |
| TicTacToe.WinMessage | examples/firstapp/openglwindow.cpp:28-32 | After the decrement, the message is "X Win" exactly when the number of moves made is odd, and "O Win" otherwise. |
| TicTacToe.NewGame | examples/firstapp/openglwindow.cpp:34-41 | The reset leaves nine blank cells and a counter of 0, whatever the previous game was. |
| TicTacToe.IsFilled | examples/firstapp/openglwindow.cpp:43-46 | `PosicaoPreenchida`: on a board of blanks and marks, a cell is filled exactly when it holds X or O. |
| TicTacToe.HasWinnerIffSomeLine | examples/firstapp/openglwindow.cpp:48-107 | `HasWinner`, the eight hand-written tests of `PossuiVencedor`, holds exactly when some row, column or diagonal of the `Lines` table holds three equal non-blank cells. |
| TicTacToe.Status | examples/firstapp/openglwindow.cpp:110-124 | A win is reported before anything else. "Draw" appears exactly when there is no winner and the counter is 9. "X Turn" or "O Turn" appears exactly when there is neither a winner nor a full count, following the player to move. |
| TicTacToe.Mark | examples/firstapp/openglwindow.cpp:127-133 | A blank cell receives the current player's mark, a filled cell keeps its content, no other cell changes, and the counter is untouched. |
| TicTacToe.Click | examples/firstapp/openglwindow.cpp:179-183 | A click changes the game exactly when the cell is blank and nobody has won. The change writes the mover's mark and adds one to the counter. After a win, clicks change nothing. |
| TicTacToe.NewGameValid | examples/firstapp/openglwindow.cpp:34-41 | The reset state satisfies the game invariant: the counter counts the marks, X is level with O or one ahead, and any win belongs to the last mover. |
| TicTacToe.ClickPreservesValid | examples/firstapp/openglwindow.cpp:179-183 | Every click keeps the game invariant. In particular, a winning move is made by the player the counter then names as the last mover. |
| TicTacToe.MoveKeepsCounts | examples/firstapp/openglwindow.cpp:179-183 | A move adds one mark for the mover, so the counter still counts the marks and X stays level with O or one ahead. |
| TicTacToe.MoveWinsForMover | examples/firstapp/openglwindow.cpp:179-183 | A move on a board nobody has won can complete a line only for the player who made it. |
| TicTacToe.MoveCounterBounds | examples/firstapp/openglwindow.cpp:175-186 | In a valid game the counter `numVez` is between 0 and 9. |
| TicTacToe.TurnMatchesCounts | examples/firstapp/openglwindow.cpp:23-26 | In a valid game X is to move exactly when X and O have made the same number of moves. |
| TicTacToe.StatusAnnouncesLastMover | examples/firstapp/openglwindow.cpp:110-116 | When there is a winner, the status names the last mover. That player owns a winning line and the other player owns none. |
| TicTacToe.DrawIffFullWithoutWinner | examples/firstapp/openglwindow.cpp:117-121 | In a valid game "Draw" is shown exactly when every cell is filled and nobody has won. |
| TicTacToe.PlayKeepsValid | examples/firstapp/openglwindow.cpp:166-194 | Any sequence of clicks and restarts from a valid game keeps it valid, and the counter stays in 0..9. |
| TicTacToe.NinthMoveWinIsAnnounced | examples/firstapp/openglwindow.cpp:113-117 | Concretely, a ninth move that completes a line is reported as "X Win", not as a draw. |
| TicTacToe.PressButton | examples/firstapp/openglwindow.cpp:179-183 | One cell button changes the game exactly when it was clicked, its cell is blank and nobody has won, and then it acts as `Click`. |
| TicTacToe.ClickFromValid | examples/firstapp/openglwindow.cpp:175-185 | The nine cell buttons of a frame keep the game valid, whichever of them were clicked. |
| TicTacToe.ClickFromFixed | examples/firstapp/openglwindow.cpp:175-185 | On a won board, or when none of the remaining buttons is clicked, the cell buttons leave the game unchanged. |
| TicTacToe.PaintFrame | examples/firstapp/openglwindow.cpp:145-199 | One UI frame shows the status of the incoming state. The result is then fixed exactly: "Restart Game" yields a fresh board. Otherwise the "Restart" menu item resets first, and the nine cell buttons follow in order, each clicked one acting as `Click`. The result is valid, and a won board or a frame with no clicks and no restart is left as it was. |
| TicTacToe.ClickFromIsPlay | examples/firstapp/openglwindow.cpp:175-185 | The cell buttons of a frame act exactly as playing their clicks one after the other, in button order. |
| MeshLoader.Positions | examples/screensaverxicara/openglwindow.cpp:114-123 | A run of references resolves to as many vertices, the j-th read from the table at `3*vertex_index`, `+1`, `+2`. |
| MeshLoader.Refs | examples/screensaverxicara/openglwindow.cpp:103-112 | The traversal of all shapes and faces visits as many references as the sum of all face arities. |
| MeshLoader.RefsAt | examples/screensaverxicara/openglwindow.cpp:105-117 | Reference j of shape s comes at position ReferenceCount(shapes[..s]) + j of the traversal, because `indexOffset` restarts for every shape. |
| MeshLoader.InsertAllCorrect | examples/screensaverxicara/openglwindow.cpp:125-133 | After any sequence of face vertices, the loop state is consistent and holds one index per reference, each naming its vertex. The vertices are in first-occurrence order and the map holds exactly the vertices seen. |
| MeshLoader.Load | examples/screensaverxicara/openglwindow.cpp:96-137 | The loaded mesh has one index per reference. Every index is below the vertex count, and following index k gives the k-th referenced vertex. No vertex appears twice, and the vertex list is the first-occurrence order of the references. |
| MeshLoader.LoadCounts | examples/screensaverxicara/openglwindow.cpp:96-137 | The index count equals the total number of face-vertex references, and the vertex count never exceeds it. |
| MeshLoader.LoadFaithful | examples/screensaverxicara/openglwindow.cpp:114-133 | For reference j of shape s, the stored index leads to a vertex whose position is the three coordinates at `3*vertex_index` of the table. |
| MeshLoader.LoadFirstOccurrence | examples/screensaverxicara/openglwindow.cpp:126-131 | A position seen for the first time at step k gets as its index the number of distinct positions seen before it, which is the current vertex count. |
| MeshLoader.LoadSameIndexIffSamePosition | examples/screensaverxicara/openglwindow.cpp:13-21 | Two references get the same index exactly when their positions are equal, because identity is the position alone. |
| MeshLoader.LoadDedupsAcrossShapes | examples/screensaverxicara/openglwindow.cpp:99-105 | The map outlives the shape loop, so references in two different shapes share an index exactly when they read equal coordinates. |
| MeshLoader.LoadDistinctCount | examples/screensaverxicara/openglwindow.cpp:125-133 | The vertex count equals the number of distinct referenced positions. |
| MeshLoader.InsertVertex | examples/screensaverxicara/openglwindow.cpp:125-133 | A vertex missing from the map is appended, and its index is the vertex count before the step. A vertex already in the map leaves the list alone and repeats its stored index. |
| MeshLoader.AddFaceVertex | examples/screensaverxicara/openglwindow.cpp:113-133 | Reading reference `indexOffset + vertexNumber` and feeding it to the map extends the loop state by exactly that one reference. |
| MeshLoader.AddFace | examples/screensaverxicara/openglwindow.cpp:110-134 | The face-vertex loop extends the loop state by exactly the face's references, in order. |
| MeshLoader.AddShape | examples/screensaverxicara/openglwindow.cpp:103-136 | The face loop of one shape, with `indexOffset` starting at zero, extends the state by exactly that shape's references. |
| MeshLoader.LoadModel | examples/screensaverxicara/openglwindow.cpp:96-137 | The nested loops compute the functional `Load`: valid indices, faithful references, no duplicate vertices. Any previous mesh content is discarded. |
| MeshLoader.TwoTrianglesExample | examples/screensaverxicara/openglwindow.cpp:96-137 | Two triangles sharing an edge give 4 vertices in first-seen order and the indices 0 1 2 0 1 3. |
| MeshLoader.Standardize | examples/screensaverxicara/openglwindow.cpp:140-161 | Standardizing rewrites every position through one map and leaves the vertex count and the index list unchanged. |
| MeshLoader.StandardizeKeepsMesh | examples/screensaverxicara/openglwindow.cpp:158-160 | After standardizing a loaded mesh, every index is still in range and leads to the rescaled position of its reference. |
| MeshLoader.StandardizeInjectiveNoDuplicates | examples/screensaverxicara/openglwindow.cpp:158-160 | Vertices stay distinct after standardizing when the rescaling is injective. |
| CupAnimation.ToSizeT | examples/screensaverxicara/openglwindow.cpp:196 | Converting the signed count to `size_t` keeps non-negative values and adds 2^64 to negative ones. |
| CupAnimation.Step | examples/screensaverxicara/openglwindow.cpp:194-197 | The count moves +10 while drawing and -10 otherwise. Afterwards the flag is set exactly when the count is at most 0, or the cup was drawing and the count is within a third of the index count. The unsigned comparison does not change the outcome. |
| CupAnimation.StepKeepsBouncing | examples/screensaverxicara/openglwindow.cpp:194-197 | The band is preserved: a growing count in [-10, size/3] and a shrinking count in (0, size/3 + 10]. |
| CupAnimation.StartBounces | examples/screensaverxicara/openglwindow.cpp:194-197 | From a count of 0, whichever way the flag starts, one frame lands in the band. |
| CupAnimation.FramesStayBounded | examples/screensaverxicara/openglwindow.cpp:194-197 | Over any number of frames the count stays within [-10, size/3 + 10]. |
| CupAnimation.EventuallyTurns | examples/screensaverxicara/openglwindow.cpp:196-197 | A growing cup starts shrinking, and a shrinking one starts growing, within a bounded number of frames. |
| CupAnimation.OvershootExample | examples/screensaverxicara/openglwindow.cpp:196 | Concretely, with 15 indices one growing step from 0 reaches 10 triangles, more than the 5 the mesh has, and turns the flag. |
| CameraKeys.HandleEvent | examples/planettour/openglwindow.cpp:18-41 | Handling an event never changes the truck speed or the zoom. A non-key event changes nothing, and unit speeds stay unit speeds. |
| CameraKeys.HandleEventIsByBinding | examples/viewer4/openglwindow.cpp:41-64 | For every state and event, the handler equals the binding-table behaviour. A press sets the bound axis to the key's direction. A release stops the bound axis only if it moves in that direction. |
| CameraKeys.KeyDownSetsBoundAxis | examples/planettour/openglwindow.cpp:18-27 | Up/W sets dolly to 1 and Down/S to -1. Left/A sets pan to -1 and Right/D to 1. The other axis is unchanged. |
| CameraKeys.KeyUpStopsOnlyMatchingDirection | examples/viewer4/openglwindow.cpp:51-64 | A release zeroes its axis exactly when the axis moves in the key's direction. Otherwise the axis keeps its speed, for example when releasing S while dolly is 1. The other axis never changes. |
| CameraKeys.UnboundKeysIgnored | examples/planettour/openglwindow.cpp:12-44 | Pressing or releasing a key bound to no axis changes nothing. |
| CameraKeys.PressReleaseStops | examples/planettour/openglwindow.cpp:28-41 | Pressing and then releasing a bound key leaves its axis at rest and everything else as before the press. |
| CameraKeys.RunKeepsUnitSpeeds | examples/planettour/openglwindow.cpp:18-41 | Over any stream of events, dolly and pan stay in {-1, 0, 1}, and truck and zoom are never modified. |
| CameraKeys.InitialRunsStayUnit | examples/planettour/openglwindow.hpp:54-56 | From the initial zero speeds, every reachable state has unit speeds and a zero truck speed. |

## Left out

- GPU work is not modelled: the OpenGL calls of every `initializeGL`, `paintGL`, `resizeGL` and `terminateGL`, and the shader programs, buffers, uniforms and draw calls. These are foreign API calls.
- OBJ parsing by `tinyobj::ObjReader` is not modelled, including its errors and warnings. Its output is the input of `LoadModel`: a coordinate table plus shapes with face arities and references.
- The code does not bound-check its reads, so the references being inside the table, with `3 * vertex_index` below 2^31 so that the 32-bit product does not overflow, is the precondition `ValidInput`.
- MeshLoader.Standardize: the float arithmetic of `standardize` is not modelled. It takes the bounding box, the center and `2/length(max-min)`, and it divides by zero for a single-point mesh. The rescaling is a parameter, and only the structure is stated: which fields change.
- MeshLoader.StandardizeKeepsMesh: does not state the numeric guarantee (centred, diagonal of length 2), because that guarantee is about floating point.
- MeshLoader.LoadModel: does not model the truncation of vertex indices to 32-bit `GLuint`, which only matters beyond 2^32 distinct vertices.
- MeshLoader.LoadSameIndexIffSamePosition: vertex equality is Dafny equality. Float NaN coordinates, which never compare equal to themselves, are not modelled.
- CupAnimation.Step: `n_trig` is taken to be a signed `int` whose 32-bit overflow is not modelled. Its declaration is in a header that is not part of this model, and from a bouncing start the counter stays in [-10, indexCount/3 + 10] (`FramesStayBounded`), so it overflows only for meshes with about 6 billion indices.
- The drawing of `n_trig*3` indices in `paintGL` is not modelled. `OvershootExample` and `FramesStayBounded` show that this count can exceed the index count by up to 30.
- CameraKeys.HandleEvent: the `SDL_GetMouseState` read is left out because its result is unused. The commented-out mouse and wheel block of `viewer4` is not code.
- Camera, trackball and matrix updates are not modelled: `update()`, `deltaTime`, the planet and satellite transforms. They are float math on classes whose code is not part of this model.
- ImGui layout is not modelled (window, menu, column, separator and button placement), and `IsItemClicked` becomes an input of `PaintFrame`.
- The random triangles and colours of `coloredtriangles` are not modelled: random numbers and floats, with no state worth proving.
- `clicacirculos` is not modelled: it holds only declarations, and no transitions of its `State` enum are visible.
