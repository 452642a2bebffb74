/**
 * Rewriter settings, output sinks and the callback trampolines (config.go).
 * The native library calls back into Go through one exported function per
 * kind of callback; each trampoline restores the Go handler saved under the
 * opaque `userData` address and hands the node to it.
 */
module Settings {
  import opened Wrappers
  import opened Pointer

  /** The largest Go `int` on the 64-bit platforms the binding targets. */
  const MaxInt64: int := 0x7FFF_FFFF_FFFF_FFFF

  datatype MemorySettings = MemorySettings(preallocatedParsingBufferSize: int, maxAllowedMemoryUsage: int)

  /** The identity of an `io.Writer` supplied by the caller. */
  type Target = nat

  /**
   * An output sink (`OutputSink`): one that drops every chunk, one that
   * forwards every chunk to an `io.Writer`, or a caller-supplied function,
   * told apart by `id`, whose effect is a `CustomEffect` parameter.
   */
  datatype Sink = Discard | Forward(target: Target) | Custom(id: nat)

  /** `Config`; a nil `Memory` pointer or a nil `Sink` function is `None`. */
  datatype Config = Config(encoding: string, memory: Option<MemorySettings>, sink: Option<Sink>, strict: bool)

  /** newDefaultConfig. */
  function DefaultConfig(): (c: Config)
    ensures c.encoding == "utf-8"
    ensures c.memory == Some(MemorySettings(1024, MaxInt64))
    ensures c.sink == Some(Discard)
    ensures c.strict
  {
    Config("utf-8", Some(MemorySettings(1024, MaxInt64)), Some(Discard), true)
  }

  /** What each `io.Writer` has received so far. */
  type Buffers = map<Target, string>

  /** The contents of `target`, empty when nothing was written to it yet. */
  function Received(buffers: Buffers, target: Target): string
  {
    if target in buffers then buffers[target] else ""
  }

  /**
   * What a caller's own sink function does with one chunk, given its
   * identity and what each writer holds: the writers' contents afterwards.
   * The function is the caller's, so its effect is a parameter.
   */
  type CustomEffect = (nat, string, Buffers) -> Buffers

  /** The effect of handing one output chunk to `sink`. */
  function Deliver(sink: Sink, chunk: string, buffers: Buffers, custom: CustomEffect): (r: Buffers)
    ensures sink.Forward? ==> r == buffers[sink.target := Received(buffers, sink.target) + chunk]
    ensures sink.Discard? ==> r == buffers
    ensures sink.Custom? ==> r == custom(sink.id, chunk, buffers)
  {
    match sink
    case Discard => buffers
    case Forward(target) => buffers[target := Received(buffers, target) + chunk]
    case Custom(id) => custom(id, chunk, buffers)
  }

  /** The effect of handing a series of chunks to `sink`, in order. */
  function DeliverAll(sink: Sink, chunks: seq<string>, buffers: Buffers, custom: CustomEffect): Buffers
  {
    if chunks == [] then buffers
    else Deliver(sink, chunks[|chunks| - 1], DeliverAll(sink, chunks[..|chunks| - 1], buffers, custom), custom)
  }

  /** All chunks joined in order. */
  function Concat(chunks: seq<string>): string
  {
    if chunks == [] then "" else Concat(chunks[..|chunks| - 1]) + chunks[|chunks| - 1]
  }

  /** The discarding sink (the default one) leaves every writer untouched. */
  lemma {:induction false} DiscardIgnoresEverything(chunks: seq<string>, buffers: Buffers, custom: CustomEffect)
    ensures DeliverAll(Discard, chunks, buffers, custom) == buffers
  {
    if chunks != [] {
      DiscardIgnoresEverything(chunks[..|chunks| - 1], buffers, custom);
    }
  }

  /**
   * A forwarding sink appends every chunk, in order, to its writer and to no
   * other writer.
   */
  lemma {:induction false} ForwardAppendsInOrder(target: Target, chunks: seq<string>, buffers: Buffers, custom: CustomEffect)
    ensures Received(DeliverAll(Forward(target), chunks, buffers, custom), target) == Received(buffers, target) + Concat(chunks)
    ensures forall t :: t != target ==> Received(DeliverAll(Forward(target), chunks, buffers, custom), t) == Received(buffers, t)
  {
    if chunks != [] {
      ForwardAppendsInOrder(target, chunks[..|chunks| - 1], buffers, custom);
    }
  }

  /** What the rewriter's status for one node tells the native library. */
  datatype Directive = Continue | Stop

  /** An opaque native node (doctype, comment, text chunk, element, document end). */
  type Node = nat

  type NodeHandler = Node -> Directive

  /**
   * A Go value saved in the handle registry for the native library: an output
   * sink or one of the five typed handler functions. The source tells them
   * apart by their Go type.
   */
  datatype Callback =
    | SinkCallback(sink: Sink)
    | DoctypeCallback(onDoctype: NodeHandler)
    | CommentCallback(onComment: NodeHandler)
    | TextChunkCallback(onTextChunk: NodeHandler)
    | ElementCallback(onElement: NodeHandler)
    | DocumentEndCallback(onDocumentEnd: NodeHandler)

  /** Handlers for nodes anywhere in the document; a nil function is `None`. */
  datatype DocumentContentHandler = DocumentContentHandler(
    doctype: Option<NodeHandler>,
    comment: Option<NodeHandler>,
    textChunk: Option<NodeHandler>,
    documentEnd: Option<NodeHandler>)

  /** Handlers for the nodes matched by a CSS selector. */
  datatype ElementContentHandler = ElementContentHandler(
    selector: string,
    element: Option<NodeHandler>,
    comment: Option<NodeHandler>,
    textChunk: Option<NodeHandler>)

  datatype Handlers = Handlers(documentContent: seq<DocumentContentHandler>, elementContent: seq<ElementContentHandler>)

  /**
   * Go's `int(int32(n))`: C's `int` is 32 bits wide, so a length converted to
   * it keeps only its low 32 bits, read as a signed number.
   */
  function CInt(n: nat): (r: int)
    ensures -0x8000_0000 <= r < 0x8000_0000
    ensures n < 0x8000_0000 ==> r == n
    ensures r <= n
    ensures (r - n) % 0x1_0000_0000 == 0
  {
    var low := n % 0x1_0000_0000;
    if low < 0x8000_0000 then low else low - 0x1_0000_0000
  }

  /**
   * callbackSink: the bytes the registered sink receives for a native chunk
   * of `chunkLen` bytes. The length goes through C's `int` and the copy is
   * made first: a negative converted length panics there, before the
   * registry is consulted; then a value restored under any other Go type
   * makes the type assertion panic.
   */
  function CallbackSink(registry: Registry<Callback>, userData: Key, chunk: string, chunkLen: nat): (r: Outcome<(Sink, string)>)
    requires chunkLen <= |chunk|
    reads registry
    ensures CInt(chunkLen) < 0 ==> r == Panic("gobytes: length out of range")
    ensures r.Return? <==> CInt(chunkLen) >= 0 && registry.Restore(userData).Some? && registry.Restore(userData).value.SinkCallback?
    ensures r.Return? ==> r.value.0 == registry.Restore(userData).value.sink
    ensures r.Return? ==> r.value.1 == chunk[..CInt(chunkLen)]
    ensures r.Return? && chunkLen < 0x8000_0000 ==> r.value.1 == chunk[..chunkLen]
  {
    var n := CInt(chunkLen);
    if n < 0 then Panic("gobytes: length out of range")
    else
      match registry.Restore(userData)
      case Some(SinkCallback(sink)) => Return((sink, chunk[..n]))
      case _ => Panic("interface conversion: interface is not OutputSink")
  }

  /** callbackDoctype: the directive of the doctype handler saved under `userData`. */
  function CallbackDoctype(registry: Registry<Callback>, userData: Key, doctype: Node): (r: Outcome<Directive>)
    reads registry
    ensures r.Return? <==> registry.Restore(userData).Some? && registry.Restore(userData).value.DoctypeCallback?
    ensures r.Return? ==> r.value == registry.Restore(userData).value.onDoctype(doctype)
  {
    match registry.Restore(userData)
    case Some(DoctypeCallback(handler)) => Return(handler(doctype))
    case _ => Panic("interface conversion: interface is not DoctypeHandlerFunc")
  }

  /** callbackComment: the directive of the comment handler saved under `userData`. */
  function CallbackComment(registry: Registry<Callback>, userData: Key, comment: Node): (r: Outcome<Directive>)
    reads registry
    ensures r.Return? <==> registry.Restore(userData).Some? && registry.Restore(userData).value.CommentCallback?
    ensures r.Return? ==> r.value == registry.Restore(userData).value.onComment(comment)
  {
    match registry.Restore(userData)
    case Some(CommentCallback(handler)) => Return(handler(comment))
    case _ => Panic("interface conversion: interface is not CommentHandlerFunc")
  }

  /** callbackTextChunk: the directive of the text chunk handler saved under `userData`. */
  function CallbackTextChunk(registry: Registry<Callback>, userData: Key, textChunk: Node): (r: Outcome<Directive>)
    reads registry
    ensures r.Return? <==> registry.Restore(userData).Some? && registry.Restore(userData).value.TextChunkCallback?
    ensures r.Return? ==> r.value == registry.Restore(userData).value.onTextChunk(textChunk)
  {
    match registry.Restore(userData)
    case Some(TextChunkCallback(handler)) => Return(handler(textChunk))
    case _ => Panic("interface conversion: interface is not TextChunkHandlerFunc")
  }

  /** callbackElement: the directive of the element handler saved under `userData`. */
  function CallbackElement(registry: Registry<Callback>, userData: Key, element: Node): (r: Outcome<Directive>)
    reads registry
    ensures r.Return? <==> registry.Restore(userData).Some? && registry.Restore(userData).value.ElementCallback?
    ensures r.Return? ==> r.value == registry.Restore(userData).value.onElement(element)
  {
    match registry.Restore(userData)
    case Some(ElementCallback(handler)) => Return(handler(element))
    case _ => Panic("interface conversion: interface is not ElementHandlerFunc")
  }

  /** callbackDocumentEnd: the directive of the document end handler saved under `userData`. */
  function CallbackDocumentEnd(registry: Registry<Callback>, userData: Key, documentEnd: Node): (r: Outcome<Directive>)
    reads registry
    ensures r.Return? <==> registry.Restore(userData).Some? && registry.Restore(userData).value.DocumentEndCallback?
    ensures r.Return? ==> r.value == registry.Restore(userData).value.onDocumentEnd(documentEnd)
  {
    match registry.Restore(userData)
    case Some(DocumentEndCallback(handler)) => Return(handler(documentEnd))
    case _ => Panic("interface conversion: interface is not DocumentEndHandlerFunc")
  }

  /**
   * A handler saved through the registry is reached again by its trampoline:
   * the native library gets back exactly the directive the handler returns.
   */
  method SavedElementHandlerAnswers(registry: Registry<Callback>, handler: NodeHandler, element: Node) returns (k: Key)
    requires registry.Valid()
    modifies registry
    ensures registry.Valid()
    ensures CallbackElement(registry, k, element) == Return(handler(element))
    ensures CallbackComment(registry, k, element).Panic?
  {
    k := registry.Save(Some(ElementCallback(handler)));
  }
}
