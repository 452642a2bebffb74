# go-lolhtml binding core, in Dafny

go-lolhtml is a cgo binding to Cloudflare's lol_html streaming HTML rewriter.
The parsing, selector matching and rewriting happen inside the native
library. This model covers the logic the binding owns itself:

- **The `Writer` lifecycle** (writer.go over rewriter.go). A `Writer` keeps a
  sticky error and a closed flag.
  - `Write`/`WriteString` skip the library once an error is recorded, and on
    empty input. Otherwise they record the library's first error.
  - `Close` is idempotent. It ends the input only when no error is recorded,
    frees the native rewriter on the first call, and returns the recorded
    error.
  - Every call that reaches the native rewriter is recorded in a ghost trace
    (`Engine.Call`). The invariant `Writers.Writer.Valid` states the protocol
    over that trace (`Writers.Conforms`): freed once when closed and never
    before, every end immediately followed by the free (so the input is
    ended only inside a Close), and nothing but the free after a failed
    call.
- **Construction** (`NewWriter`, `RewriteString`).
  - Sink and settings selection.
  - Handler registration in order, with selectors parsed one by one.
  - The error returned, and which native objects stay allocated: the C heap
    is the class `Engine.Heap`.
- **The handle registry** (pointer.go). Values are saved under fresh opaque
  addresses, restored, and unreferenced.
- **Configuration defaults, sinks and the callback trampolines** (config.go).
- **The content mutators** (element.go, comment.go, textchunk.go,
  documentend.go).
  - Each mutator is reduced to the native call it makes and the error it
    returns.
  - The documented escaping rule for "as text" content is the function
    `Escaping.Escape`. It has a proved inverse and proved properties.
  - A small rendering function (`Mutation.Render`) places before, after and
    replacing insertions the way the doc comments describe.

The native library is an oracle whose answers are parameters:

- a `Reply(code, lastError)` for each status-returning call;
- a selector `parse` function;
- a build failure;
- the chunks it emits to the sink.

A caller's own `Config.Sink` function is a parameter as well: its effect on the writers, `Settings.CustomEffect`.

Other conventions:

- Go panics are the `Panic` case of `Wrappers.Outcome`.
- A Go byte slice or string is a Dafny `string`, one character per byte.
- Nil receivers (`Writer.Close`, `rewriter.Free`) are module-level methods
  taking a nullable reference.

Notes on the source:

- The trampolines, the builder and `rewriter.Free` (rewriter.go:11 and
  rewriter.go:59) use the `github.com/mattn/go-pointer` package. pointer.go
  defines an equivalent registry that nothing calls. The model uses
  pointer.go's registry in two of the three places: the trampolines
  (`Settings.Callback*`) and `Engine.Free`, which unreferences through
  `Pointer.Registry.Unref`. The builder's `Save` calls (builder.go:51-54,
  84-86 and 107) are not modelled.
- builder.go:108 converts the native result straight to `*rewriter`, a Go
  struct with the fields `rw` and `pointers` (rewriter.go:16-19), so no Go
  code sets either field. The model reads Build's result as a rewriter
  whose `handle` is the native pointer and whose `pointers` list is empty.
  `Engine.Free`'s unreferencing loop therefore runs over an empty list for
  every rewriter `NewWriter` builds. Nothing else unreferences the handlers
  and the sink saved at builder.go:51-54, 84-86 and 107, so every
  `NewWriter` leaves its registrations in the go-pointer store for good.
- A `Config` passed with a nil `Memory` makes builder.go dereference nil.
- Three doc comments contradict their code, and the model follows the code:
  - the comment's `InsertAfterAsText` (comment.go:84) says "before" but inserts after;
  - the comment's `InsertAfterAsHTML` (comment.go:97) says "before the comment" but inserts after;
  - the element's `InsertBeforeEndTagAsText` (element.go:191) says "after the element's end tag" but inserts before it.
- With an explicit `Config.Sink`, `RewriteString` returns an empty string
  even on success: the output goes to the config's sink, never to the
  internal buffer (`Writers.CollectedOnlyThroughBuffer`).
- `callbackSink` converts the chunk length to C's 32-bit `int`. Lengths of
  2^31 bytes and more wrap around (`Settings.CInt`).

## Model

| member | source | states |
|---|---|---|
| Errors.GetError | error.go:16-23 | a pending message becomes an error made from it; an empty message gives the sentinel ErrCannotGetErrorMessage, which no error made from a message equals; the error's text is never empty |
| Errors.FromCode | element.go:147-150 | a status code yields no error exactly when it is 0, otherwise the pending error |
| Errors.ErrorOf | rewriter.go:48-52 | the error of a native reply is nil exactly when its code is 0, and otherwise the pending error (the sentinel when no message is pending) |
| Pointer.Lookup | pointer.go:33-42 | a value is found exactly for a non-null address present in the store, and it is the stored value |
| Pointer.Forget | pointer.go:44-52 | after unreferencing, the address restores nothing and every other address restores what it did before |
| Pointer.ForgetAllRemovesExactly | pointer.go:54-58 | unreferencing a list removes exactly the listed addresses and keeps every other |
| Pointer.Registry.Save | pointer.go:18-31 | nil yields the null address and leaves the store alone; any other value is stored under a non-null address that was not live |
| Pointer.Registry.Restore | pointer.go:33-42 | the value saved under the address, or nil for the null or an absent address |
| Pointer.Registry.Unref | pointer.go:44-52 | the store loses the address; the null address changes nothing |
| Pointer.Registry.UnrefAll | pointer.go:54-58 | the loop leaves the store with every listed address forgotten, in order |
| Settings.DefaultConfig | config.go:24-34 | encoding "utf-8", a 1024-byte parsing buffer, a memory limit of 1<<63 - 1, a discarding sink, strict mode |
| Settings.Deliver | config.go:63-68 | a forwarding sink appends the chunk to its writer and nothing else; the discarding sink leaves every writer untouched; a caller's sink has exactly the effect its function has, given as a parameter |
| Settings.DiscardIgnoresEverything | config.go:31 | the default sink leaves every writer unchanged, whatever the chunks |
| Settings.ForwardAppendsInOrder | writer.go:43-45 | a sink forwarding to a writer appends all chunks to it, in order, and to no other writer |
| Settings.CInt | config.go:65 | the conversion to C's int keeps the value below 2^31 and wraps it modulo 2^32 into the signed range |
| Settings.CallbackSink | config.go:64-68 | the copy comes first: a negative converted length panics before the registry is read; otherwise the sink saved under userData receives exactly the first C.int(chunkLen) bytes, which are the first chunkLen bytes below 2^31, and a missing or mistyped value panics |
| Settings.CallbackDoctype | config.go:71-74 | returns exactly the directive of the doctype handler saved under userData; a missing or mistyped value panics |
| Settings.CallbackComment | config.go:77-80 | returns exactly the directive of the comment handler saved under userData; a missing or mistyped value panics |
| Settings.CallbackTextChunk | config.go:83-86 | returns exactly the directive of the text chunk handler saved under userData; a missing or mistyped value panics |
| Settings.CallbackElement | config.go:89-92 | returns exactly the directive of the element handler saved under userData; a missing or mistyped value panics |
| Settings.CallbackDocumentEnd | config.go:95-98 | returns exactly the directive of the document end handler saved under userData; a missing or mistyped value panics |
| Settings.SavedElementHandlerAnswers | config.go:89-92 | a handler saved in the registry is reached by its own trampoline with its own directive, and the comment trampoline panics on it |
| Engine.Heap.Alloc | builder.go:22-24 | a native constructor returns a handle that was not live and is live afterwards |
| Engine.Heap.Release | builder.go:26-30 | a native destructor makes exactly that live handle dead |
| Engine.CountsAppend | writer.go:124-128 | appending a call to a trace raises the free, end and failure counts only by that call |
| Engine.NoEnds | writer.go:124-128 | a trace counts no end exactly when none of its calls is an end |
| Engine.NoFailures | writer.go:87-89 | a trace counts no failure exactly when none of its calls failed |
| Engine.Buffer | rewriter.go:23-29 | the data pointer always addresses at least one byte, and its first len(p) bytes are p |
| Engine.CString | rewriter.go:37-40 | the C copy of a chunk is the chunk followed by a NUL byte |
| Engine.Rewriter.Write | rewriter.go:22-34 | logs one write of len(p) bytes; returns (len(p), nil) exactly on code 0, otherwise (0, pending error) |
| Engine.Rewriter.WriteString | rewriter.go:36-45 | logs one write of a C copy of the chunk; returns (len(chunk), nil) exactly on code 0, otherwise (0, pending error) |
| Engine.Rewriter.End | rewriter.go:47-53 | logs one end; nil exactly on code 0 |
| Engine.Free | rewriter.go:55-62 | nil does nothing; otherwise the handle is released, a free is logged, and every owned registry address is unreferenced |
| Engine.Builder.constructor | builder.go:22-24 | a new builder occupies a fresh native handle and has no registrations |
| Engine.Builder.AddDocumentContentHandlers | builder.go:32-66 | appends one document content registration |
| Engine.Builder.AddElementContentHandlers | builder.go:68-97 | appends one element content registration |
| Engine.Builder.Build | builder.go:99-121 | on success, a fresh rewriter with an empty trace, built with the given sink, settings and registrations; on a null result, the pending error and no new handle |
| Engine.Builder.Free | builder.go:26-30 | releases the builder's handle |
| Writers.DefaultSinkIsNeverUsed | writer.go:31-39 | without a config the sink is chosen as for a config with no sink, by the target alone; the default config's own discarding sink would differ exactly when a target is given |
| Writers.SelectSink | writer.go:25-47 | an explicit config's sink wins; otherwise no target means discarding and a target means forwarding to it |
| Writers.ConfigArgument | writer.go:27-28 | a nil variadic config means none, a non-empty one its first element; an empty non-nil one panics on the index, and nothing else does |
| Writers.EffectiveConfig | writer.go:27-39 | the caller's config when there is one, the defaults otherwise |
| Writers.FirstRejectedIsEarliest | writer.go:60-65 | the construction error is the parse error of the earliest rejected selector |
| Writers.NoneRejected | writer.go:60-72 | no selector error is reported exactly when every selector parses |
| Writers.Registrations | writer.go:51-73 | every document content handler in order, then every element content handler in order |
| Writers.FreedAfterEndsMeans | writer.go:120-130 | the recursive form of "every end is immediately followed by the free" holds exactly when the position-by-position form does |
| Writers.WriteConforms | writer.go:86-99 | a write by a writer with no recorded error keeps the protocol, and makes the writer failed exactly when the write fails |
| Writers.FreeConforms | writer.go:125-128 | freeing the rewriter of an open writer with a recorded error keeps the protocol and closes it |
| Writers.EndFreeConforms | writer.go:125-128 | ending, then freeing, an open writer with no recorded error keeps the protocol; a failed end makes it failed |
| Writers.Writer.Write | writer.go:86-99 | a recorded error is returned with n=0 and no call; empty input returns (0, nil) and changes nothing; otherwise one engine write whose error becomes the recorded one; closed is never consulted; Valid is kept |
| Writers.Writer.WriteString | writer.go:102-115 | the same rules as Write, through a C copy of the string |
| Writers.Close | writer.go:120-130 | nil or closed: returns nil and changes nothing; otherwise closes, ends only without a recorded error, frees once, and returns the recorded error or End's |
| Writers.FirstRejectedIndex | writer.go:60-64 | the selectors before the returned position all parse and the one at it is rejected; it is the number of selectors exactly when none is rejected |
| Writers.RegisterHandlers | writer.go:51-73 | registers all handlers in order unless a selector is rejected; returns the first rejection; the selectors parsed so far, exactly those before the first rejected one, stay allocated and are distinct |
| Writers.RegisterElementHandlers | writer.go:60-72 | parses each selector in order and registers its handler behind the registrations already made; stops at the first rejected selector with its error; exactly the selectors before it are parsed, stay allocated and are distinct |
| Writers.FreeSelectors | writer.go:79-81 | releases every parsed selector exactly once |
| Writers.ChooseSettings | writer.go:25-47 | the branches pick exactly EffectiveConfig and SelectSink of the target and config |
| Writers.PrepareBuilder | writer.go:49-73 | a fresh builder whose registrations are those of the handlers when no selector is rejected; the error is the first rejected selector's; exactly the builder and the selectors parsed, all fresh and distinct, are newly allocated |
| Writers.FinishBuild | writer.go:74-81 | a failed build returns its error and frees nothing; a successful one returns a fresh rewriter with the builder's registrations and frees exactly the builder and the selectors |
| Writers.BuildRewriter | writer.go:49-81 | the error is the first selector error, else the build error; on success a fresh rewriter with the given sink, settings and registrations, and only it left allocated; on error exactly the builder and the selectors parsed are left allocated |
| Writers.NewWriter | writer.go:24-84 | the error is the first selector error, else the build error; on success a valid open writer with the selected sink, settings and registrations, and only the rewriter left allocated; on error exactly the builder and the selectors parsed (those before the first rejected one, or all of them when the build fails) are leaked |
| Writers.CollectedOnlyThroughBuffer | writer.go:133-156 | the internal buffer receives every emitted chunk, in order, when the sink forwards to it, and nothing otherwise; a caller's sink cannot reach the local buffer |
| Writers.OtherSinksLeaveBuffer | writer.go:133-156 | a sink that does not forward to the buffer leaves it as it was, given that a caller's sink cannot reach the buffer RewriteString declares locally |
| Writers.RewriteError | writer.go:142-153 | the first error of construction, writing a non-empty input, or closing; none exactly when all three succeed |
| Writers.RewriteString | writer.go:133-157 | ("", first error) or (buffer contents, nil); every native object is freed on success and when Close fails; a failed write leaves exactly the rewriter allocated; a construction error leaves exactly the builder and the parsed selectors allocated |
| Writers.WriteThenClose | writer.go:146-154 | the write's error if it fails, then without closing and with the heap unchanged; otherwise Close's error, with the rewriter freed |
| Writers.WriteAfterClose | writer.go:86-99 | a non-empty write after a successful Close reaches the freed rewriter |
| Writers.SecondCloseForgetsError | writer.go:120-123 | a first Close that fails returns the error, a second one returns nil; End and free happen once |
| Escaping.Escape | element.go:153-161 | the escaped text is at least as long and contains no `<` or `>` |
| Escaping.UnescapeEscape | element.go:153-161 | escaping loses nothing: unescaping the escaped text gives back the original |
| Escaping.EscapedAmpersandsAreEntities | element.go:153-161 | every `&` in escaped text starts one of `&lt;`, `&gt;`, `&amp;` |
| Escaping.EscapeIdentity | element.go:153-161 | escaping changes a text exactly when it contains `<`, `>` or `&` |
| Escaping.EscapeConcat | element.go:153-161 | escaping works character by character: it distributes over concatenation |
| Mutation.Performed | element.go:147-150 | a mutator reports nil exactly on code 0, otherwise the pending error |
| Mutation.RenderBefore | comment.go:65-73 | a before-insertion lands in front of the node |
| Mutation.RenderAfter | textchunk.go:75-83 | an after-insertion lands behind the node |
| Mutation.RenderReplace | comment.go:103-111 | a replacing insertion takes the node's place |
| Mutation.TextInsertionsAddNoMarkup | textchunk.go:56-64 | insertions made only as text add no `<` or `>` around a node |
| Elements.Dispatch | element.go:130-146 | exactly the six kinds 0..5 reach a native entry point; any other value panics |
| Elements.DispatchIsInjective | element.go:130-146 | distinct kinds reach distinct element entry points |
| Elements.Alter | element.go:126-151 | one native call with the dispatched entry point, the content and the mode; nil exactly on code 0 |
| Elements.InsertBeforeStartTagAsText | element.go:162-164 | before-start-tag, text mode: the content is escaped; nil exactly on code 0 |
| Elements.InsertBeforeStartTagAsHTML | element.go:168-170 | before-start-tag, HTML mode: the content is inserted unchanged |
| Elements.InsertAfterStartTagAsText | element.go:181-183 | after-start-tag (prepend), text mode, escaped |
| Elements.InsertAfterStartTagAsHTML | element.go:187-189 | after-start-tag (prepend), HTML mode, unchanged |
| Elements.InsertBeforeEndTagAsText | element.go:200-202 | before-end-tag (append), text mode, escaped |
| Elements.InsertBeforeEndTagAsHTML | element.go:206-208 | before-end-tag (append), HTML mode, unchanged |
| Elements.InsertAfterEndTagAsText | element.go:219-221 | after-end-tag, text mode, escaped |
| Elements.InsertAfterEndTagAsHTML | element.go:225-227 | after-end-tag, HTML mode, unchanged |
| Elements.SetInnerContentAsText | element.go:238-240 | set-inner-content, text mode, escaped |
| Elements.SetInnerContentAsHTML | element.go:244-246 | set-inner-content, HTML mode, unchanged |
| Elements.ReplaceAsText | element.go:257-259 | replace, text mode, escaped |
| Elements.ReplaceAsHTML | element.go:263-265 | replace, HTML mode, unchanged |
| Elements.SetTagName | element.go:27-36 | asks for the new name; nil exactly on code 0, otherwise the pending error (the sentinel when no message is pending) |
| Elements.HasAttribute | element.go:69-80 | code 1 gives (true, nil), code 0 gives (false, nil), anything else gives (false, pending error) |
| Elements.MissingAttributeReadsAsEmpty | element.go:52-66 | with no pending message, a missing attribute and an empty one read the same |
| Elements.AttributeValue | element.go:52-66 | a pending message gives ("", that error) whatever the value; otherwise the value, "" when missing |
| Comments.Dispatch | comment.go:48-58 | exactly the three kinds 0..2 reach a native entry point; any other value panics |
| Comments.DispatchIsInjective | comment.go:48-58 | distinct kinds reach distinct comment entry points |
| Comments.Alter | comment.go:44-63 | one native call with the dispatched entry point; nil exactly on code 0 |
| Comments.InsertBeforeAsText | comment.go:74-76 | as written: the call goes to the after entry point, in text mode |
| Comments.InsertBeforeAsTextDocumented | comment.go:65-73 | as documented: escaped content before the comment |
| Comments.InsertBeforeAsTextLandsAfter | comment.go:65-76 | the content of InsertBeforeAsText ends up behind the comment, where the documented behaviour puts it in front |
| Comments.InsertBeforeAsTextCounterexample | comment.go:74-76 | on `<!--c-->` with content `x` the two renderings differ |
| Comments.InsertBeforeAsHTML | comment.go:80-82 | before the comment, HTML mode, unchanged |
| Comments.InsertAfterAsText | comment.go:93-95 | after the comment, text mode, escaped |
| Comments.InsertAfterAsHTML | comment.go:99-101 | after the comment, HTML mode, unchanged |
| Comments.ReplaceAsText | comment.go:112-114 | replaces the comment, text mode, escaped |
| Comments.ReplaceAsHTML | comment.go:118-120 | replaces the comment, HTML mode, unchanged |
| Comments.SetText | comment.go:25-34 | asks for the new text; nil exactly on code 0 |
| Comments.SetTextScenario | comment_test.go:22-45 | a successful SetText("Yo") turns `<!--Hey 42-->` into `<!--Yo-->` |
| TextChunks.Dispatch | textchunk.go:39-49 | exactly the three kinds 0..2 reach a native entry point; any other value panics |
| TextChunks.DispatchIsInjective | textchunk.go:39-49 | distinct kinds reach distinct text chunk entry points |
| TextChunks.Alter | textchunk.go:35-54 | one native call with the dispatched entry point; nil exactly on code 0 |
| TextChunks.InsertBeforeAsText | textchunk.go:65-67 | before the chunk, text mode, escaped |
| TextChunks.InsertBeforeAsHTML | textchunk.go:71-73 | before the chunk, HTML mode, unchanged |
| TextChunks.InsertAfterAsText | textchunk.go:84-86 | after the chunk, text mode, escaped |
| TextChunks.InsertAfterAsHTML | textchunk.go:90-92 | after the chunk, HTML mode, unchanged |
| TextChunks.ReplaceAsText | textchunk.go:103-105 | replaces the chunk, text mode, escaped |
| TextChunks.ReplaceAsHTML | textchunk.go:109-111 | replaces the chunk, HTML mode, unchanged |
| TextChunks.FramedChunk | textchunk.go:56-92 | markup inserted before as HTML and text inserted after frame the chunk, the text escaped |
| TextChunks.FramedChunkScenario | textchunk_test.go:26-58 | `Hey 42` framed by `<div>` as HTML and `</div>` as text renders as `<div>Hey 42&lt;/div&gt;` |
| TextChunks.EscapeClosingDiv | textchunk.go:56-64 | `</div>` as text becomes `&lt;/div&gt;` |
| DocumentEnds.AppendAsText | documentend.go:25-34 | one append in text mode, escaped; nil exactly on code 0 |
| DocumentEnds.AppendAsHTML | documentend.go:38-47 | one append in HTML mode, unchanged; nil exactly on code 0 |
| DocumentEnds.TextAppendsAddNoMarkup | documentend.go:16-24 | appends made only as text never add `<` or `>` |
| DocumentEnds.AppendedTwo | documentend.go:16-47 | two appends give the first's text, then the second's |
| DocumentEnds.AppendScenario | documentend_test.go:18-45 | appending `<!--appended text-->` as HTML, then `hello & world` as text, gives `<!--appended text-->hello &amp; world` |
| DocumentEnds.EscapeAmpersandPhrase | documentend.go:16-24 | `hello & world` as text becomes `hello &amp; world` |

## Left out

- The native library: tokenizing, selector parsing and matching, the encoding check, memory accounting and the rendering of the final document. Its answers are parameters. `Mutation.Render` is the rendering the doc comments promise, not the library's code.
- Mutation.Render: several after-insertions on one node are placed in call order. The native library's order for them is not part of this model.
- TextChunks: `IsLastInTextNode`, `Content`, `Remove` and `IsRemoved` are getters and calls into the library with no logic of their own in the binding.
- Elements: `TagName`, `NamespaceURI`, `AttributeIterator`, `SetAttribute`, `RemoveAttribute`, `Remove`, `RemoveAndKeepContent` and `IsRemoved` are left out for the same reason. `SetAttribute` and `RemoveAttribute` follow the same code-0 rule as `Errors.FromCode`.
- Comments: `Text`, `Remove` and `IsRemoved` are left out for the same reason.
- lolhtml.go is an older single-file copy of the binding and is not part of this model. selector.go, string.go, callback.go, doctype.go and attribute.go are C marshalling and are not part of this model either.
- builder.go is modelled only as far as NewWriter needs it: allocation, registration order, build success or failure, and free. The saving of handlers into the registry is not modelled.
- Writers.NewWriter: requires a config's `Memory` to be set. With a nil `Memory`, builder.go dereferences nil and panics; that panic is not modelled.
- Writers.RewriteString: requires a config's `Memory` to be set, for the same reason as NewWriter, to which it passes the config.
- Writers.NewWriter: only the first element of the variadic `config` argument is read, and the model takes that one optional config. An empty non-nil slice panics on `config[0]` at writer.go:28; that panic is stated by `Writers.ConfigArgument`, not by NewWriter, which is given what ConfigArgument returns.
- Writers.RewriteString: an empty non-nil variadic `config` panics on `config[0]` at writer.go:138; as for NewWriter, that panic is stated by `Writers.ConfigArgument` only.
- Writers.Writer: the zero `Writer` value has a nil rewriter. An empty write returns (0, nil) before the rewriter is touched; its first non-empty write, or its Close, panics. The model only builds Writers through NewWriter.
- Writers.RewriteString: the output is given as the chunks the library emits to the sink. The model does not say which chunk belongs to which write.
- Errors.Error: errors made by `errors.New` compare by identity in Go, so two errors with the same text are different values there. The model tells the sentinel apart from every other error, but two errors made from the same message are equal in it.
- Pointer.Registry: the concurrent `sync.Map` is a sequential map. A failing `malloc`, which panics in the source, is not modelled: allocation always succeeds.
- Settings.CallbackSink: a chunk is taken as a string of bytes, and C's `GoBytes` copy is modelled as a prefix.
- Settings.Deliver: what a caller's own `Config.Sink` function does is a parameter, `CustomEffect`, and may change any writer. The one thing assumed of it is that it cannot reach RewriteString's buffer: `Writers.CannotReach`, required by `Writers.CollectedOnlyThroughBuffer`. This holds because the buffer is a local variable (writer.go:134) declared after the caller wrote the function.
- I/O: writing to the caller's `io.Writer` and its errors, which the forwarding sink ignores, are not modelled. A forwarding sink appends to that writer's contents.

## Findings

| source | as written | input that shows it | evidently intended | confidence | as-written member | corrected member |
|---|---|---|---|---|---|---|
| comment.go:74-76 | `InsertBeforeAsText` passes `commentInsertAfter`, so the escaped content goes after the comment | comment `<!--c-->`, content `x`: `<!--c-->x` instead of `x<!--c-->` | `commentInsertBefore`, as its doc comment at comment.go:65 says | high (not executed) | Comments.InsertBeforeAsText | Comments.InsertBeforeAsTextDocumented |
