# Engine core in Dafny

A Dafny model of the statable logic of a small C++ OpenGL game engine. It
covers four areas:

- **Vertex layouts** (`Buffer.h`). Per-type byte sizes and component counts.
  `BufferLayout::CalculateOffsetsAndStride` gives each attribute its byte
  offset and the layout its stride.
- **Shaders** (`OpenGLShader.cpp`):
  - the `#type <stage>` splitter that cuts one source buffer into per-stage
    sources, and the stage-name lookup;
  - the display name a shader takes from its file path;
  - the create / attach / link / delete sequence that builds a program;
  - the uniform setters: the names they compose (`name[i]`, `list.member`,
    `list[idx].member`), the calls they make, and what those calls store.
- **Renderer** (`Renderer.cpp`). The scene protocol: `BeginScene` records the
  camera, `Submit` draws with it, `EndScene` does nothing, and nothing checks
  the order of these calls.
- **Application** (`Application.cpp`):
  - the singleton constructor;
  - the close and resize handlers;
  - delivery of events to the layer stack from the top down;
  - the frame loop.

GL, GLFW, ImGui, the window and the layers are opaque. The model records what
the engine asks of them as a trace of calls. Driver answers are parameters:
object handles, compile and link outcomes, uniform locations and block
indices. Where an answer matters, a small state model replays the trace:

- `Gl.Replay` tracks which shader objects are live, attached and linked;
- `Uniforms.Run` tracks the bound program and the stored uniform values.

Modules, one per concern: `Base` (Option, Result), `Buffer`, `Decimal`
(`std::to_string` and its inverse), `Gl` (stages, the call trace, object
lifetimes), `ShaderSource` (the splitter), `ShaderName` (display names),
`ShaderProgram` (program builds and the shader constructors), `Uniforms`,
`Renderer`, `Application`.

## Model

| member | source | states |
|---|---|---|
| `Buffer.ShaderDataTypeSize` | Engine/src/Engine/Renderer/Buffer.h:11-40 | The size is 0 exactly for `None`; every other type's size is its component count times 4 bytes (float, int) or 1 byte (bool) |
| `Buffer.ComponentCount` | Engine/src/Engine/Renderer/Buffer.h:56-83 | Every type but `None` has between 1 and 16 components; `None` is outside the switch and is excluded |
| `Buffer.NewElement` | Engine/src/Engine/Renderer/Buffer.h:52-55 | A new element keeps its name, type and normalized flag, has offset 0, and its size is the type's byte size (0 only for `None`) |
| `Buffer.GetComponentCount` | Engine/src/Engine/Renderer/Buffer.h:56-83 | For an element built by the constructor, its size is its component count times the per-component bytes |
| `Buffer.CalculateOffsetsAndStride` | Engine/src/Engine/Renderer/Buffer.h:104-114 | Element `i` gets the sum of the sizes of elements `0..i-1` as its offset and is otherwise unchanged; the stride is the sum of all sizes |
| `Buffer.LayoutKeepsElements` | Engine/src/Engine/Renderer/Buffer.h:108-113 | Laying out keeps each element's name, type, size and normalized flag |
| `Buffer.LayoutIsContiguous` | Engine/src/Engine/Renderer/Buffer.h:104-117 | Each offset is the previous offset plus the previous size; the stride is the last offset plus the last size, and 0 for no elements |
| `Buffer.LayoutIdempotent` | Engine/src/Engine/Renderer/Buffer.h:106-107 | Laying out an already laid-out element list gives the same layout again |
| `Buffer.LayoutUnique` | Engine/src/Engine/Renderer/Buffer.h:104-114 | The offsets and stride are fully determined by the elements |
| `Buffer.EmptyLayoutLaidOut` | Engine/src/Engine/Renderer/Buffer.h:95-117 | The default layout is the layout of no elements: stride 0 |
| `Decimal.NatToString` | Engine/src/Platform/OpenGL/OpenGLShader.cpp:293 | `std::to_string` of an index is a non-empty string of digits with no leading zero except for 0 itself |
| `Decimal.ParseNatToString` | Engine/src/Platform/OpenGL/OpenGLShader.cpp:293 | Reading the decimal spelling back gives the index |
| `Decimal.NatToStringInjective` | Engine/src/Platform/OpenGL/OpenGLShader.cpp:293 | Different indices have different spellings |
| `ShaderSource.ShaderTypeFromString` | Engine/src/Platform/OpenGL/OpenGLShader.cpp:14-25 | The result is 0 exactly for an unknown name, and otherwise is the `GLenum` of the one stage the name denotes |
| `ShaderSource.StageLookup` | Engine/src/Platform/OpenGL/OpenGLShader.cpp:14-25 | "vertex" names the vertex stage, "fragment" and "pixel" the fragment stage, "geometry" the geometry stage, and no other string names a stage |
| `ShaderSource.TokenAtIsSlice` | Engine/src/Platform/OpenGL/OpenGLShader.cpp:84-86 | A directive starts at `i` exactly when the five characters there are `#type` |
| `ShaderSource.FindToken` | Engine/src/Platform/OpenGL/OpenGLShader.cpp:86-97 | `find("#type", from)` returns the first directive at or after `from`, or `npos` when there is none |
| `ShaderSource.FindLineEnd` | Engine/src/Platform/OpenGL/OpenGLShader.cpp:90 | `find_first_of("\r\n", from)` returns the first CR or LF at or after `from`, or `npos` |
| `ShaderSource.FindNonLineEnd` | Engine/src/Platform/OpenGL/OpenGLShader.cpp:96 | `find_first_not_of("\r\n", from)` returns the first character that is neither CR nor LF, or `npos` |
| `ShaderSource.StageNameAt` | Engine/src/Platform/OpenGL/OpenGLShader.cpp:92-93 | The stage name runs from one past the token to the line end; with no gap after the token, `eol - begin` wraps and the name runs to the end of the buffer |
| `ShaderSource.SectionAt` | Engine/src/Platform/OpenGL/OpenGLShader.cpp:88-98 | Reading one section moves forward: the next directive found lies after the current one |
| `ShaderSource.SplitSource` | Engine/src/Platform/OpenGL/OpenGLShader.cpp:82-99 | The splitter loop fails exactly when reading the sections fails, and otherwise returns the stage map those sections build |
| `ShaderSource.SplitRender` | Engine/src/Platform/OpenGL/OpenGLShader.cpp:84-99 | Any directive-free preamble followed by rendered sections splits back into exactly those sections: the preamble is discarded |
| `ShaderSource.SplitRenderable` | Engine/src/Platform/OpenGL/OpenGLShader.cpp:96-98 | Every successful split yields sections whose bodies hold no `#type`, do not start with a line end, and (for the last) are not empty, so they render back |
| `ShaderSource.StageMapLastWins` | Engine/src/Platform/OpenGL/OpenGLShader.cpp:98 | A stage is in the map exactly when some section names it, and it holds the body of the last section that does |
| `ShaderSource.StageMapAtMostThree` | Engine/src/Platform/OpenGL/OpenGLShader.cpp:82-98 | The stage map never has more than three entries |
| `ShaderSource.NoDirectiveNoSections` | Engine/src/Platform/OpenGL/OpenGLShader.cpp:86-88 | A buffer without `#type` gives no sections and an empty map |
| `ShaderSource.UnknownStageRejected` | Engine/src/Platform/OpenGL/OpenGLShader.cpp:93-94 | A directive naming an unknown stage fails the split with that name |
| `ShaderSource.MissingLineEndRejected` | Engine/src/Platform/OpenGL/OpenGLShader.cpp:90-91 | A directive with no line end after it fails the split |
| `ShaderSource.TrailingDirectiveRejected` | Engine/src/Platform/OpenGL/OpenGLShader.cpp:96-98 | A directive followed only by line ends fails: `substr(npos)` throws |
| `ShaderSource.TwoStageExample` | Engine/src/Platform/OpenGL/OpenGLShader.cpp:82-99 | "#type vertex\nA\n#type fragment\nB\n" splits into vertex "A\n" and fragment "B\n" |
| `ShaderName.LastIndexOf` | Engine/src/Platform/OpenGL/OpenGLShader.cpp:168-170 | `find_last_of` / `rfind` return the last position holding one of the characters, or `npos` when none does |
| `ShaderName.Substr` | Engine/src/Platform/OpenGL/OpenGLShader.cpp:172 | `substr(pos, count)` is the slice from `pos`, clamped to the end of the string |
| `ShaderName.NameStart` | Engine/src/Platform/OpenGL/OpenGLShader.cpp:168-169 | The name starts one past the last separator, or at 0; no separator follows it |
| `ShaderName.DisplayName` | Engine/src/Platform/OpenGL/OpenGLShader.cpp:167-172 | The name is a slice of the path starting at the name start and holds no separator |
| `ShaderName.WrappedCount` | Engine/src/Platform/OpenGL/OpenGLShader.cpp:171-172 | When the last dot precedes the name start, `lastDot - lastSlash` wraps to a count reaching past the end of the path |
| `ShaderName.DisplayNameSplit` | Engine/src/Platform/OpenGL/OpenGLShader.cpp:167-172 | Every path is directory + name + extension, the extension starting at the last dot after the directory, or empty |
| `ShaderName.SplitUnique` | Engine/src/Platform/OpenGL/OpenGLShader.cpp:167-172 | A path splits into directory, stem and extension in only one way |
| `ShaderName.DisplayNameIsStem` | Engine/src/Platform/OpenGL/OpenGLShader.cpp:180-185 | The name is exactly the stem of that split |
| `ShaderName.TextureExample` | Engine/src/Platform/OpenGL/OpenGLShader.cpp:167-172 | "assets/shaders/Texture.glsl" is named "Texture" |
| `ShaderName.DotInDirectoryExample` | Engine/src/Platform/OpenGL/OpenGLShader.cpp:170-172 | "v1.2/flat" is named "flat": a dot only in the directory is no extension |
| `ShaderProgram.LoadShader` | Engine/src/Platform/OpenGL/OpenGLShader.cpp:27-44 | Loading a stage starts by creating a shader object of that stage |
| `ShaderProgram.LoadShaderLogsFailure` | Engine/src/Platform/OpenGL/OpenGLShader.cpp:36-41 | The compile failure is logged exactly when compilation fails |
| `ShaderProgram.LoadShaderDriverCalls` | Engine/src/Platform/OpenGL/OpenGLShader.cpp:29-32 | Whatever the outcome, the driver sees create, source, compile, in that order |
| `ShaderProgram.ReplayLoadShader` | Engine/src/Platform/OpenGL/OpenGLShader.cpp:27-44 | Loading a stage leaves exactly one more live shader object |
| `ShaderProgram.LinkCheckAsWritten` | Engine/src/Platform/OpenGL/OpenGLShader.cpp:119-126 | With `GL_COMPILE_STATUS` the query is rejected, `success` keeps whatever it held, and the report depends on that alone |
| `ShaderProgram.LinkCheckAsWrittenCounterexample` | Engine/src/Platform/OpenGL/OpenGLShader.cpp:121 | A failed link goes unreported, and a good link is reported as a failure, depending on stale stack contents |
| `ShaderProgram.LinkCheckCorrected` | Engine/src/Platform/OpenGL/OpenGLShader.cpp:264-271 | With `GL_LINK_STATUS` a failure is reported exactly when the link fails |
| `ShaderProgram.LinkReport` | Engine/src/Platform/OpenGL/OpenGLShader.cpp:119-126 | The program log is emitted at most once; queried with `GL_LINK_STATUS` exactly when the link fails, queried with `GL_COMPILE_STATUS` exactly when the stale `success` is 0 |
| `ShaderProgram.Entries` | Engine/src/Platform/OpenGL/OpenGLShader.cpp:111 | Iterating the map visits each of its entries with its own source, and nothing else |
| `ShaderProgram.EntriesDistinct` | Engine/src/Platform/OpenGL/OpenGLShader.cpp:111 | No stage is visited twice |
| `ShaderProgram.Issued` | Engine/src/Platform/OpenGL/OpenGLShader.cpp:113 | The `i`-th stage loaded gets the `i`-th handle the driver issues |
| `ShaderProgram.Deletes` | Engine/src/Platform/OpenGL/OpenGLShader.cpp:128-129 | One delete per stage object, in load order |
| `ShaderProgram.LoadProgram` | Engine/src/Platform/OpenGL/OpenGLShader.cpp:104-130 | The build creates the program first and carries that program; its link report uses the status query it is given |
| `ShaderProgram.ReplayAttachments` | Engine/src/Platform/OpenGL/OpenGLShader.cpp:111-116 | The load-and-attach loop makes every stage object live and attached |
| `ShaderProgram.ReplayDeletes` | Engine/src/Platform/OpenGL/OpenGLShader.cpp:128-129 | The delete loop retires exactly the stage objects |
| `ShaderProgram.ReplayLinkAndRelease` | Engine/src/Platform/OpenGL/OpenGLShader.cpp:117-129 | Linking takes in everything attached, the status report changes nothing, and the deletes retire the stage objects |
| `ShaderProgram.LinkAndReleaseOrder` | Engine/src/Platform/OpenGL/OpenGLShader.cpp:117-129 | After attaching, the program is linked first and the stage objects are deleted only after it; nothing after the link attaches |
| `ShaderProgram.LoadProgramLifetime` | Engine/src/Platform/OpenGL/OpenGLShader.cpp:104-130 | After a build every stage object is attached, linked and no longer live, whatever the compile and link outcomes; nothing else changes (that the deletes come after the link is `LoadProgramOrder`) |
| `ShaderProgram.LoadProgramOrder` | Engine/src/Platform/OpenGL/OpenGLShader.cpp:104-130 | In a map build every attach comes before the link and every delete after it, whatever the outcomes |
| `ShaderProgram.AttachmentsDriverCalls` | Engine/src/Platform/OpenGL/OpenGLShader.cpp:111-116 | Compile outcomes change only log entries in the load-and-attach loop |
| `ShaderProgram.LoadProgramOutcomeIndependent` | Engine/src/Platform/OpenGL/OpenGLShader.cpp:104-130 | The driver calls of a build do not depend on compile or link outcomes, nor on what `success` held: failures only log |
| `ShaderProgram.LoadProgramOnePerStage` | Engine/src/Platform/OpenGL/OpenGLShader.cpp:108-116 | A build creates one stage object per map entry |
| `ShaderProgram.Attaches` | Engine/src/Platform/OpenGL/OpenGLShader.cpp:135-137 | One attach per id, in order |
| `ShaderProgram.IdList` | Engine/src/Platform/OpenGL/OpenGLShader.cpp:135-137 | The geometry id takes part only when it is nonzero |
| `ShaderProgram.LoadProgramIds` | Engine/src/Platform/OpenGL/OpenGLShader.cpp:132-152 | The three-id build creates its program first; its link report uses the status query it is given |
| `ShaderProgram.LoadProgramIdsLifetime` | Engine/src/Platform/OpenGL/OpenGLShader.cpp:132-152 | Vertex, fragment and (if nonzero) geometry objects end attached, linked and deleted (deleted after the link: `LoadProgramIdsOrder`) |
| `ShaderProgram.LoadProgramIdsOrder` | Engine/src/Platform/OpenGL/OpenGLShader.cpp:132-152 | The three-id build attaches before the link and deletes after it |
| `ShaderProgram.LoadProgramIdsLength` | Engine/src/Platform/OpenGL/OpenGLShader.cpp:132-152 | Two or three attaches and deletes and one link; as written (`GL_COMPILE_STATUS`) one more entry exactly when the stale `success` is 0, with `GL_LINK_STATUS` exactly when the link fails |
| `ShaderProgram.LoadProgramIdsLinkLog` | Engine/src/Platform/OpenGL/OpenGLShader.cpp:139-149 | As written the three-id build logs a link failure exactly when the stale `success` is 0; with `GL_LINK_STATUS` exactly when the link fails |
| `ShaderProgram.LoadProgramIdsMissesFailedLink` | Engine/src/Platform/OpenGL/OpenGLShader.cpp:142 | As written, a failed link while `success` holds 1 leaves no log line |
| `ShaderProgram.Compile` | Engine/src/Platform/OpenGL/OpenGLShader.cpp:194-208 | Compiling starts with the vertex stage's shader object; the build queries `GL_COMPILE_STATUS`, as the source does |
| `ShaderProgram.ReplayLoadStages` | Engine/src/Platform/OpenGL/OpenGLShader.cpp:196-198 | Loading the stages makes vertex, fragment and, when given, geometry objects live |
| `ShaderProgram.CompileLifetime` | Engine/src/Platform/OpenGL/OpenGLShader.cpp:194-208 | Every stage object compiled ends attached, linked and deleted |
| `ShaderProgram.CompileOrder` | Engine/src/Platform/OpenGL/OpenGLShader.cpp:194-208 | `compile` loads and attaches its stages before the link and deletes them only after it |
| `ShaderProgram.FromFile` | Engine/src/Platform/OpenGL/OpenGLShader.cpp:163-173 | The single-file constructor fails exactly when the split fails; otherwise it builds the program and takes its name from the path |
| `ShaderProgram.FromFileLifetime` | Engine/src/Platform/OpenGL/OpenGLShader.cpp:163-173 | On a source that splits, one stage object per distinct stage named in the file is created, and each ends attached, linked and deleted; nothing else changes |
| `ShaderProgram.FromFileOrder` | Engine/src/Platform/OpenGL/OpenGLShader.cpp:163-173 | When the split succeeds, the single-file constructor links before it deletes any stage object |
| `ShaderProgram.FromFiles` | Engine/src/Platform/OpenGL/OpenGLShader.cpp:175-186 | The three-file constructor names the shader after the vertex file's path |
| `ShaderProgram.FromCode` | Engine/src/Platform/OpenGL/OpenGLShader.cpp:188-192 | The from-code constructor keeps the given name |
| `Uniforms.ElementMemberNameComposes` | Engine/src/Platform/OpenGL/OpenGLShader.cpp:291-294 | `list[i].member` is the member `member` of element `list[i]` |
| `Uniforms.ParseElementNameRoundTrip` | Engine/src/Platform/OpenGL/OpenGLShader.cpp:337-342 | Every element name `name[i]` reads back as the array name and the index |
| `Uniforms.ElementNameInjective` | Engine/src/Platform/OpenGL/OpenGLShader.cpp:337-349 | Different arrays or indices address different element names |
| `Uniforms.ElementMemberNameInjective` | Engine/src/Platform/OpenGL/OpenGLShader.cpp:351-363 | Within one array of structs, different indices address different member names |
| `Uniforms.AsLocation` | Engine/src/Platform/OpenGL/OpenGLShader.cpp:325-329 | A `GLuint` passed as a location reads as the 32-bit two's-complement number with the same low bits |
| `Uniforms.SetEffect` | Engine/src/Platform/OpenGL/OpenGLShader.cpp:313-317 | A setter binds its program and stores the value at the location its target resolves to, and nowhere else; nothing is stored for location -1 or program 0 |
| `Uniforms.SetMemberEffect` | Engine/src/Platform/OpenGL/OpenGLShader.cpp:319-323 | A struct-member setter stores at the location of `list.member` |
| `Uniforms.SetNamedIsSetAt` | Engine/src/Platform/OpenGL/OpenGLShader.cpp:313-335 | Setting by name equals setting at the location looked up for that name |
| `Uniforms.SetIndexedAsWrittenIgnored` | Engine/src/Platform/OpenGL/OpenGLShader.cpp:325-329 | As written, when `list[idx].member` is not a uniform block the upload stores nothing |
| `Uniforms.SetIndexedAsWrittenCounterexample` | Engine/src/Platform/OpenGL/OpenGLShader.cpp:325-329 | For a program with `lights[0].color` at location 3, the indexed setter as written leaves it unset; the corrected one sets it |
| `Uniforms.SetIndexedMatchesArray` | Engine/src/Platform/OpenGL/OpenGLShader.cpp:351-356 | The corrected indexed setter stores what the member-array setter stores for that element |
| `Uniforms.UploadsShape` | Engine/src/Platform/OpenGL/OpenGLShader.cpp:340-341 | Each element contributes a bind and then its upload, in index order |
| `Uniforms.SetArrayShape` | Engine/src/Platform/OpenGL/OpenGLShader.cpp:337-342 | An array setter binds the program, then for each element in index order binds it again (the element's own setter) and uploads once, `name[i]` carrying `vs[i]` |
| `Uniforms.SetArrayFillShape` | Engine/src/Platform/OpenGL/OpenGLShader.cpp:344-349 | A broadcast setter binds, then for each of `size` elements binds again and uploads the same value, to `name[0]` … `name[size-1]` |
| `Uniforms.SetMemberArrayShape` | Engine/src/Platform/OpenGL/OpenGLShader.cpp:351-356 | A member-array setter binds, then for each element binds again and uploads `vs[i]` to `list[i].member` |
| `Uniforms.UploadsEffect` | Engine/src/Platform/OpenGL/OpenGLShader.cpp:340-341 | After the element loop each element with a location holds its value and every other location is unchanged |
| `Uniforms.SetArrayEffect` | Engine/src/Platform/OpenGL/OpenGLShader.cpp:337-342 | After an array setter, element `i` holds `vs[i]` wherever the program has it, and nothing else in any program changed |
| `Uniforms.UnboundSameEffect` | Engine/src/Platform/OpenGL/OpenGLShader.cpp:595-605 | The member-array setters without a leading bind store the same as the others for a non-empty array, and change nothing for an empty one |
| `Uniforms.UnboundFillSameEffect` | Engine/src/Platform/OpenGL/OpenGLShader.cpp:601-605 | The broadcast member-array setter without the leading bind stores the same as the bound one for at least one element, and changes nothing for none |
| `Renderer.Init` | Engine/src/Engine/Renderer/Renderer.cpp:11-15 | Initialisation sets up render commands, then the 2D renderer, and makes no shader call |
| `Renderer.OnWindowResize` | Engine/src/Engine/Renderer/Renderer.cpp:17-20 | A resize sets one viewport, from the origin, to the new size, and makes no shader call |
| `Renderer.BeginScene` | Engine/src/Engine/Renderer/Renderer.cpp:22-25 | Beginning a scene records the camera's view-projection, whatever the scene held |
| `Renderer.EndScene` | Engine/src/Engine/Renderer/Renderer.cpp:27-29 | Ending a scene changes nothing |
| `Renderer.Submit` | Engine/src/Engine/Renderer/Renderer.cpp:31-39 | A submit makes five shader calls, then binds the vertex array and draws that same array, last |
| `Renderer.SubmitShape` | Engine/src/Engine/Renderer/Renderer.cpp:31-39 | `Submit` issues: bind the shader, set `modelMat` to the transform, set `viewProjMat` to the scene's matrix, bind the vertex array, draw it |
| `Renderer.SubmitStores` | Engine/src/Engine/Renderer/Renderer.cpp:31-39 | After a submit the shader is bound; where it has the uniforms it holds the transform as `modelMat` and the scene's view-projection as `viewProjMat`; shader 0 and missing uniforms store nothing; every other location keeps its value |
| `Renderer.SessionSceneInitial` | Engine/src/Engine/Renderer/Renderer.cpp:22-39 | Without `BeginScene` the scene stays as it started: `EndScene` and `Submit` never change it |
| `Renderer.SessionSceneLatest` | Engine/src/Engine/Renderer/Renderer.cpp:22-25 | The scene holds the camera of the most recent `BeginScene`; a second one overwrites the first |
| `Renderer.DrawUsesLatestBegin` | Engine/src/Engine/Renderer/Renderer.cpp:22-39 | Each draw uses the camera of the latest `BeginScene` before it |
| `Renderer.DrawBeforeBegin` | Engine/src/Engine/Renderer/Renderer.cpp:9-39 | A draw before any `BeginScene` uses the scene data the renderer started with |
| `Renderer.SessionCommands` | Engine/src/Engine/Renderer/Renderer.cpp:22-29 | Only draws issue commands |
| `Application.Construct` | Engine/src/Engine/Application.cpp:15-27 | Construction fails exactly when an instance already exists; otherwise this object becomes the instance, running and not minimized |
| `Application.SecondConstructionFails` | Engine/src/Engine/Application.cpp:17-18 | Once one application exists, constructing another fails |
| `Application.ConstructTrace` | Engine/src/Engine/Application.cpp:20-26 | The renderer is initialised (render commands, then the 2D renderer) before the ImGui layer is pushed as a layer, never an overlay, and then attached |
| `Application.PushLayer` | Engine/src/Engine/Application.cpp:47-51 | A layer goes onto the stack as a layer, then is attached |
| `Application.PushOverlay` | Engine/src/Engine/Application.cpp:53-57 | An overlay goes onto the stack as an overlay, then is attached |
| `Application.OnWindowClose` | Engine/src/Engine/Application.cpp:59-63 | Closing stops the application and handles the event; nothing else changes |
| `Application.OnWindowResize` | Engine/src/Engine/Application.cpp:65-75 | A resize minimizes exactly when it is 0 by 0, changes nothing else in the application, never handles the event, and makes no renderer call when minimizing |
| `Application.ResizeEffect` | Engine/src/Engine/Application.cpp:65-75 | Only 0 by 0 minimizes, with no renderer call; any other size restores and sets the viewport once from the origin; the event stays unhandled |
| `Application.Dispatch` | Engine/src/Engine/Application.cpp:35-37 | A close stops the application and is handled, with no effects; a resize keeps `running` and is unhandled; any other event changes nothing and stays unhandled; the frame time and the ImGui layer never change |
| `Application.Deliver` | Engine/src/Engine/Application.cpp:39-44 | The loop visits layers from the top of the stack down, at most all of them and at least the top one |
| `Application.DeliverFrom` | Engine/src/Engine/Application.cpp:39-44 | Layers are visited from the top down; the first is always called; the loop stops right after the first layer after which the event is handled; if it never is, every layer sees it |
| `Application.CloseReachesTopLayer` | Engine/src/Engine/Application.cpp:33-44 | A close event, already handled by the application, still reaches the top layer, and only that one when layers keep it handled |
| `Application.UnhandledReachesAll` | Engine/src/Engine/Application.cpp:39-44 | An event nobody handles reaches every layer, top first |
| `Application.OnEvent` | Engine/src/Engine/Application.cpp:33-45 | The application state after an event is the dispatcher's; the dispatcher's effects come first, then at most one delivery per layer, the top layer's first |
| `Application.IterationShape` | Engine/src/Engine/Application.cpp:81-95 | A frame updates every layer in stack order unless minimized, renders every layer's ImGui part between begin and end regardless, updates the window once, last, and stores the new frame time |
| `Application.Iteration` | Engine/src/Engine/Application.cpp:81-95 | A frame stores the new clock reading, changes nothing else in the application, and ends with the window update |
| `Application.Run` | Engine/src/Engine/Application.cpp:77-96 | The loop runs at most one frame per clock reading, and stops early only once the application is no longer running |
| `Application.Events` | Engine/src/Engine/Application.cpp:33-63 | Handling a frame's events never changes the stored frame time or the ImGui layer |
| `Application.EventsKeepStopped` | Engine/src/Engine/Application.cpp:33-63 | Nothing restarts a stopped application, and a close event among a frame's events stops it |
| `Application.RunStopsAfterClose` | Engine/src/Engine/Application.cpp:77-96 | A close during frame `k` lets that frame finish and starts no later frame |
| `Application.RunClock` | Engine/src/Engine/Application.cpp:81-83 | The stored frame time ends at the last frame's clock reading, or is unchanged when no frame ran |

## Left out

- Reading shader files (`OpenGLShader.cpp` lines 46-80) is file I/O. The splitter and the constructors take the already-loaded text as a parameter.
- `compile_debug` and `checkCompileErrors` (lines 210-273) only duplicate the build sequence with logging. Line 266 serves as the reference for the corrected link check.
- `uniformBlockBinding` (lines 296-299), `texSlotCounter`, the copy constructor and the destructor are left out. They hold no logic beyond one forwarded call.
- Uniform payloads (floats, `glm` vectors and matrices, the `transpose` flag) are opaque values. The component-wise overloads `set2f`, `set3f` and `set4f` (by name at lines 441, 505 and 545, by location at lines 447, 511 and 575) pass their floats as one such value, so they are the same bind-then-upload as `set2fv`, `set3fv` and `set4fv`.
- The frame clock is an integer. The source reads a `float` from `glfwGetTime`, and float rounding of the time step is not modelled.
- `Application.OnEvent` passes the event to each layer's `OnEvent` through `react`, a parameter giving the handled flag after the call. The `EventDispatcher` is assumed to store the handler's result as the event's handled flag.
- `Application.Construct` takes the initial `running`, `minimized` and `lastFrameTime` (true, false, 0) from member initialisers in `Application.h`, which is not part of this model.
- The layer stack, the window, ImGui, `RenderCommand`, `Renderer2D` and `VertexArray` are not part of this model. The layers are an ordered sequence; the other collaborators appear only as trace entries.
- `PushOverlay` is modelled only as the trace it produces. Nothing in the core calls it, and the overlay ordering of the stack is not visible here.
- `Buffer.CalculateOffsetsAndStride` does not model the 32-bit wrap-around of `offset` and `m_stride`. Sizes are at most 64 bytes, so this needs over 67 million attributes.
- `VertexBuffer` and `IndexBuffer` (`Buffer.h` lines 120-145) are interfaces with no logic. `OpenGLTexture.h` only declares accessors.
- `Renderer.DrawBeforeBegin` takes the initial scene data as a parameter. The source's default-initialised `glm::mat4` is not modelled.
- `ShaderProgram.LoadShader` does not model the content of the info log or its 512-byte buffer.
- `ShaderProgram.LoadProgram` takes the iteration order of `std::unordered_map` as a ranking of the three stages, given as a parameter.
- `ShaderProgram.LoadProgram` and `ShaderProgram.LoadProgramIds` take what `success` held before the link query as a parameter (`prior`). In the source it is an uninitialised stack value.
- `Renderer.Submit` assumes that `dynamic_pointer_cast<OpenGLShader>` succeeds (`Renderer.cpp` lines 33-35): the shader is always an OpenGL shader. A failed cast dereferences a null pointer, and that case is not modelled.
- Assertion failures (`EG_CORE_ASSERT`) are modelled by what follows them. The splitter returns an error where its assertions fail, and construction of a second application fails. Where the code goes on after the assertion, the model goes on too: `Buffer.ShaderDataTypeSize` of `None` is 0 (`Buffer.h` lines 38-39), and `ShaderSource.ShaderTypeFromString` of an unknown name is 0 (`OpenGLShader.cpp` lines 23-24).

## Findings

| source | as written | input that shows it | evidently intended | confidence | as-written member | corrected member |
|---|---|---|---|---|---|---|
| Engine/src/Platform/OpenGL/OpenGLShader.cpp:121 | `glGetProgramiv(id, GL_COMPILE_STATUS, &success)` (also line 142). `GL_COMPILE_STATUS` is not a program parameter, so the driver raises `GL_INVALID_ENUM`, leaves `success` unset, and the report depends on stale stack contents | a program whose link fails while `success` happens to hold 1: no log; a good link with 0: a spurious failure log | `GL_LINK_STATUS`, as `checkCompileErrors` uses at line 266 | high, not executed | `ShaderProgram.LinkCheckAsWrittenCounterexample` | `ShaderProgram.LinkCheckCorrected` |
| Engine/src/Platform/OpenGL/OpenGLShader.cpp:328 | The indexed setters (lines 325-329, 377-381, 429-433, 493-497, 563-567, 619-623, 671-675) pass `getUniformBlockIndex("list[idx].member")` as a uniform location. For an ordinary uniform that is `GL_INVALID_INDEX`, which reads as location -1, and the upload is ignored | a program with uniform `lights[0].color` at location 3 and no blocks: `setInt("lights", "color", v, 0)` leaves location 3 unset | look the name up with `glGetUniformLocation`, as the member-array setters do | high, not executed | `Uniforms.SetIndexedAsWrittenCounterexample` | `Uniforms.SetIndexedMatchesArray` |
