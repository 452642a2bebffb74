/**
 * The public streaming API (writer.go): a Writer feeds its input to a native
 * rewriter, remembers the first error, and ends and frees the rewriter on its
 * first Close. Writes may stay buffered in the library until Close.
 */
module Writers {
  import opened Wrappers
  import opened Errors
  import opened Pointer
  import opened Settings
  import opened Engine

  /**
   * The sink NewWriter installs: an explicit config's own sink wins over the
   * target writer; failing that, no target discards the output and a target
   * receives every chunk.
   */
  function SelectSink(target: Option<Target>, config: Option<Config>): (s: Sink)
    ensures config.Some? && config.value.sink.Some? ==> s == config.value.sink.value
    ensures (config.None? || config.value.sink.None?) ==> (s == Discard <==> target.None?)
    ensures (config.None? || config.value.sink.None?) ==> (s.Forward? <==> target.Some?)
    ensures s.Forward? && target.Some? && (config.None? || config.value.sink.None?) ==> s.target == target.value
  {
    if config.Some? && config.value.sink.Some? then config.value.sink.value
    else if target.None? then Discard
    else Forward(target.value)
  }

  /** Without an explicit config the target alone decides, whatever the default config's sink is. */
  lemma DefaultSinkIsNeverUsed(target: Option<Target>)
    ensures SelectSink(target, None) == SelectSink(target, Some(DefaultConfig().(sink := None)))
    ensures SelectSink(target, None) != SelectSink(target, Some(DefaultConfig())) <==> target.Some?
  {
  }

  /**
   * How NewWriter and RewriteString read their variadic `config` argument:
   * a nil slice (`None`) means no config and a non-empty one its first
   * element, while indexing an empty non-nil slice panics.
   */
  function ConfigArgument(config: Option<seq<Config>>): (r: Outcome<Option<Config>>)
    ensures r.Panic? <==> config == Some([])
    ensures config.None? ==> r == Return(None)
    ensures config.Some? && config.value != [] ==> r == Return(Some(config.value[0]))
  {
    match config
    case None => Return(None)
    case Some(cs) => if cs == [] then Panic("index out of range [0] with length 0") else Return(Some(cs[0]))
  }

  /** The settings NewWriter builds with: the caller's config, else the defaults. */
  function EffectiveConfig(config: Option<Config>): (c: Config)
    ensures config.Some? ==> c == config.value
    ensures config.None? ==> c == DefaultConfig() && c.strict && c.encoding == "utf-8"
  {
    if config.Some? then config.value else DefaultConfig()
  }

  /** The first selector, in handler order, that the library refuses to parse. */
  function FirstRejected(hs: seq<ElementContentHandler>, parse: string -> Option<Error>): Option<Error>
  {
    if hs == [] then None
    else if parse(hs[0].selector).Some? then parse(hs[0].selector)
    else FirstRejected(hs[1..], parse)
  }

  /**
   * `FirstRejected` is the parse error of the earliest rejected selector, and
   * there is none exactly when every selector parses.
   */
  lemma {:induction false} FirstRejectedIsEarliest(hs: seq<ElementContentHandler>, parse: string -> Option<Error>, i: nat)
    requires i < |hs| && parse(hs[i].selector).Some?
    requires forall k :: 0 <= k < i ==> parse(hs[k].selector).None?
    ensures FirstRejected(hs, parse) == parse(hs[i].selector)
  {
    if i > 0 {
      FirstRejectedIsEarliest(hs[1..], parse, i - 1);
    }
  }

  /** How many selectors, in handler order, parse before the first rejected one. */
  function FirstRejectedIndex(hs: seq<ElementContentHandler>, parse: string -> Option<Error>): (i: nat)
    ensures i <= |hs|
    ensures forall k :: 0 <= k < i ==> parse(hs[k].selector).None?
    ensures i < |hs| ==> parse(hs[i].selector).Some?
    ensures FirstRejected(hs, parse).None? <==> i == |hs|
  {
    if hs == [] then 0
    else if parse(hs[0].selector).Some? then 0
    else
      var rest := FirstRejectedIndex(hs[1..], parse);
      assert forall k :: 1 <= k < |hs| ==> hs[1..][k - 1] == hs[k];
      1 + rest
  }

  /**
   * How many selectors NewWriter parses, and so allocates: all of them, or
   * those before the first rejected one.
   */
  function SelectorsParsed(handlers: Option<Handlers>, parse: string -> Option<Error>): nat
  {
    if handlers.Some? then FirstRejectedIndex(handlers.value.elementContent, parse) else 0
  }

  lemma {:induction false} NoneRejected(hs: seq<ElementContentHandler>, parse: string -> Option<Error>)
    ensures FirstRejected(hs, parse).None? <==> forall k :: 0 <= k < |hs| ==> parse(hs[k].selector).None?
  {
    if hs != [] {
      NoneRejected(hs[1..], parse);
      assert forall k :: 1 <= k < |hs| ==> hs[1..][k - 1] == hs[k];
    }
  }

  /**
   * The error NewWriter returns: the first selector parse error, otherwise
   * the error of a failed build, otherwise none.
   */
  function ConstructionError(handlers: Option<Handlers>, parse: string -> Option<Error>, buildFailure: Option<string>): Option<Error>
  {
    var rejected := if handlers.Some? then FirstRejected(handlers.value.elementContent, parse) else None;
    if rejected.Some? then rejected
    else if buildFailure.Some? then Some(GetError(buildFailure.value))
    else None
  }

  /**
   * The registrations NewWriter makes: every document content handler in
   * order, then every element content handler in order.
   */
  function Registrations(handlers: Option<Handlers>): (r: seq<Registration>)
    ensures handlers.None? ==> r == []
    ensures handlers.Some? ==> |r| == |handlers.value.documentContent| + |handlers.value.elementContent|
    ensures handlers.Some? ==> forall k :: 0 <= k < |handlers.value.documentContent| ==>
              r[k] == DocumentContent(handlers.value.documentContent[k])
    ensures handlers.Some? ==> forall k :: 0 <= k < |handlers.value.elementContent| ==>
              r[|handlers.value.documentContent| + k] == ElementContent(handlers.value.elementContent[k])
  {
    if handlers.None? then []
    else
      var docs, elems := handlers.value.documentContent, handlers.value.elementContent;
      seq(|docs|, k requires 0 <= k < |docs| => DocumentContent(docs[k]))
      + seq(|elems|, k requires 0 <= k < |elems| => ElementContent(elems[k]))
  }

  /** Every end in `log`, except one that is its last call, is immediately followed by the free. */
  ghost predicate FreedAfterEnds(log: seq<Call>)
  {
    |log| < 2 || (FreedAfterEnds(log[..|log| - 1]) && (log[|log| - 2].Ended? ==> log[|log| - 1].Freed?))
  }

  /** `FreedAfterEnds` says what it promises, position by position. */
  lemma {:induction false} FreedAfterEndsMeans(log: seq<Call>)
    ensures FreedAfterEnds(log) <==> forall i :: 0 <= i < |log| - 1 && log[i].Ended? ==> log[i + 1].Freed?
  {
    if |log| >= 2 {
      var front := log[..|log| - 1];
      FreedAfterEndsMeans(front);
      assert forall i :: 0 <= i < |front| ==> front[i] == log[i];
    }
  }

  /**
   * The protocol a writer keeps with its rewriter, read off the trace: freed
   * once if `closed` and never otherwise; every end immediately followed by
   * the free, so the input is ended only within a Close; one failed call
   * exactly when the writer has `failed`, followed by nothing but the free.
   */
  ghost predicate Conforms(log: seq<Call>, closed: bool, failed: bool)
  {
    && Frees(log) == (if closed then 1 else 0)
    && Ends(log) <= Frees(log)
    && Failures(log) == (if failed then 1 else 0)
    && FreedAfterEnds(log) && (log != [] ==> !log[|log| - 1].Ended?)
    && (forall i, j :: 0 <= i < j < |log| && Failed(log[i]) ==> log[j].Freed?)
  }

  /** A write on a writer with no recorded error keeps the protocol; a failed write makes it failed. */
  lemma WriteConforms(log: seq<Call>, closed: bool, c: Call)
    requires Conforms(log, closed, false) && c.Written?
    ensures Conforms(log + [c], closed, !c.ok)
  {
    CountsAppend(log, c);
    NoFailures(log);
    assert (log + [c])[..|log|] == log;
  }

  /** Freeing an open writer's rewriter keeps the protocol and closes it. */
  lemma FreeConforms(log: seq<Call>, failed: bool)
    requires Conforms(log, false, failed)
    ensures Conforms(log + [Freed], true, failed)
  {
    var freed := log + [Freed];
    assert freed[..|log|] == log;
    CountsAppend(log, Freed);
  }

  /**
   * Ending the input of an open writer with no failed call, then freeing
   * its rewriter, keeps the protocol; a failed end makes the writer failed.
   */
  lemma EndFreeConforms(log: seq<Call>, ok: bool)
    requires Conforms(log, false, false)
    ensures Conforms(log + [Ended(ok)] + [Freed], true, !ok)
  {
    var ended := log + [Ended(ok)];
    var freed := ended + [Freed];
    assert ended[..|log|] == log && freed[..|ended|] == ended;
    NoFailures(log);
    NoEnds(log);
    CountsAppend(log, Ended(ok));
    CountsAppend(ended, Freed);
    assert FreedAfterEnds(ended);
    assert forall i :: 0 <= i < |log| ==> freed[i] == log[i];
  }

  /** `Writer`: the target writer, the native rewriter, the sticky error and the closed flag. */
  class Writer {
    const target: Option<Target>
    const rewriter: Rewriter
    var err: Option<Error>
    var closed: bool

    /** The writer keeps the protocol with its rewriter. */
    ghost predicate Valid()
      reads this, rewriter
    {
      Conforms(rewriter.log, closed, err.Some?)
    }

    constructor (target: Option<Target>, rewriter: Rewriter)
      requires rewriter.log == []
      ensures Valid()
      ensures this.target == target && this.rewriter == rewriter
      ensures err.None? && !closed
    {
      this.target := target;
      this.rewriter := rewriter;
      err := None;
      closed := false;
    }

    /**
     * Writer.Write: a recorded error is returned again without reaching the
     * library; empty input does nothing; otherwise the bytes go to the
     * rewriter and its error, if any, is recorded. `closed` is not consulted.
     */
    method Write(p: string, reply: Reply) returns (n: nat, e: Option<Error>)
      requires Valid()
      modifies this
      modifies rewriter
      ensures Valid() && closed == old(closed)
      ensures old(err).Some? ==> n == 0 && e == old(err) && err == old(err) && rewriter.log == old(rewriter.log)
      ensures old(err).None? && p == [] ==> n == 0 && e.None? && err.None? && rewriter.log == old(rewriter.log)
      ensures old(err).None? && p != [] ==>
                && rewriter.log == old(rewriter.log) + [Written(p, |p|, reply.code == 0)]
                && e == ErrorOf(reply) && err == e
                && n == (if e.None? then |p| else 0)
    {
      if err.Some? {
        return 0, err;
      }
      if |p| == 0 {
        return 0, None;
      }
      ghost var call := Written(p, |p|, reply.code == 0);
      WriteConforms(rewriter.log, closed, call);
      n, e := rewriter.Write(p, reply);
      assert rewriter.log == old(rewriter.log) + [call];
      if e.Some? {
        err := e;
        return;
      }
    }

    /** Writer.WriteString: `Write` for a string, through a C copy of it. */
    method WriteString(s: string, reply: Reply) returns (n: nat, e: Option<Error>)
      requires Valid()
      modifies this
      modifies rewriter
      ensures Valid() && closed == old(closed)
      ensures old(err).Some? ==> n == 0 && e == old(err) && err == old(err) && rewriter.log == old(rewriter.log)
      ensures old(err).None? && s == [] ==> n == 0 && e.None? && err.None? && rewriter.log == old(rewriter.log)
      ensures old(err).None? && s != [] ==>
                && rewriter.log == old(rewriter.log) + [Written(CString(s), |s|, reply.code == 0)]
                && e == ErrorOf(reply) && err == e
                && n == (if e.None? then |s| else 0)
    {
      if err.Some? {
        return 0, err;
      }
      if |s| == 0 {
        return 0, None;
      }
      ghost var before := rewriter.log;
      n, e := rewriter.WriteString(s, reply);
      WriteConforms(before, closed, Written(CString(s), |s|, reply.code == 0));
      if e.Some? {
        err := e;
        return;
      }
    }
  }

  /**
   * Writer.Close: a nil or closed writer returns nil and nothing happens.
   * Otherwise the writer becomes closed, the input is ended only if no error
   * was recorded (End's error becoming the recorded one), the rewriter is
   * freed, and the recorded error is returned.
   */
  method Close<V>(w: Writer?, endReply: Reply, heap: Heap, registry: Registry<V>) returns (e: Option<Error>)
    requires heap.Valid() && registry.Valid()
    requires w != null ==> w.Valid() && (!w.closed ==> w.rewriter.handle in heap.live)
    modifies if w == null then {} else {w, w.rewriter}, heap, registry
    ensures heap.Valid() && registry.Valid()
    ensures w != null ==> w.Valid() && w.closed
    ensures w == null ==> e.None? && unchanged(heap, registry)
    ensures w != null && old(w.closed) ==> e.None? && unchanged(w, w.rewriter, heap, registry)
    ensures w != null && !old(w.closed) ==>
              && w.rewriter.log == old(w.rewriter.log) + (if old(w.err).None? then [Ended(endReply.code == 0)] else []) + [Freed]
              && w.err == (if old(w.err).Some? then old(w.err) else ErrorOf(endReply))
              && e == w.err
              && heap.live == old(heap.live) - {w.rewriter.handle}
              && registry.entries == ForgetAll(old(registry.entries), w.rewriter.pointers)
  {
    if w == null || w.closed {
      return None;
    }
    ghost var before := w.rewriter.log;
    w.closed := true;
    if w.err.None? {
      w.err := w.rewriter.End(endReply);
      Free(w.rewriter, heap, registry);
      EndFreeConforms(before, endReply.code == 0);
      assert w.rewriter.log == before + [Ended(endReply.code == 0)] + [Freed];
    } else {
      Free(w.rewriter, heap, registry);
      FreeConforms(before, true);
      assert w.rewriter.log == before + [] + [Freed];
    }
    return w.err;
  }

  /** No handle occurs twice. */
  predicate Distinct(hs: seq<Handle>)
  {
    forall j, k :: 0 <= j < k < |hs| ==> hs[j] != hs[k]
  }

  /**
   * The registration loops of NewWriter: every document content handler in
   * order, then every element content handler in order, each after its
   * selector was parsed; the first parse error stops the loop. The selectors
   * parsed so far are returned, allocated, in either case.
   */
  method RegisterHandlers(rb: Builder, handlers: Handlers, parse: string -> Option<Error>, heap: Heap)
    returns (selectors: seq<Handle>, err: Option<Error>)
    requires heap.Valid() && rb.registrations == []
    modifies rb, heap
    ensures heap.Valid()
    ensures err == FirstRejected(handlers.elementContent, parse)
    ensures heap.live == old(heap.live) + (set h | h in selectors)
    ensures forall h :: h in selectors ==> h !in old(heap.live)
    ensures Distinct(selectors)
    ensures |selectors| == FirstRejectedIndex(handlers.elementContent, parse)
    ensures err.None? ==> rb.registrations == Registrations(Some(handlers))
  {
    var docs := handlers.documentContent;
    for i := 0 to |docs|
      modifies rb
      invariant |rb.registrations| == i
      invariant forall k :: 0 <= k < i ==> rb.registrations[k] == DocumentContent(docs[k])
    {
      rb.AddDocumentContentHandlers(docs[i]);
    }
    ghost var registered := rb.registrations;
    selectors, err := RegisterElementHandlers(rb, handlers.elementContent, parse, heap);
    if err.None? {
      RegisteredInOrder(handlers, registered, rb.registrations);
    }
  }

  /** Document registrations followed by element registrations, each in order, are `Registrations`. */
  lemma RegisteredInOrder(handlers: Handlers, docs: seq<Registration>, all: seq<Registration>)
    requires |docs| == |handlers.documentContent|
    requires forall k :: 0 <= k < |docs| ==> docs[k] == DocumentContent(handlers.documentContent[k])
    requires |all| == |docs| + |handlers.elementContent|
    requires forall k :: 0 <= k < |docs| ==> all[k] == docs[k]
    requires forall k :: 0 <= k < |handlers.elementContent| ==> all[|docs| + k] == ElementContent(handlers.elementContent[k])
    ensures all == Registrations(Some(handlers))
  {
    var expected := Registrations(Some(handlers));
    forall k | 0 <= k < |expected|
      ensures all[k] == expected[k]
    {
      if k >= |docs| {
        assert all[|docs| + (k - |docs|)] == ElementContent(handlers.elementContent[k - |docs|]);
      }
    }
  }

  /**
   * The second registration loop: each element content handler in order,
   * after its selector was parsed, behind the registrations made so far.
   */
  method RegisterElementHandlers(rb: Builder, elems: seq<ElementContentHandler>, parse: string -> Option<Error>, heap: Heap)
    returns (selectors: seq<Handle>, err: Option<Error>)
    requires heap.Valid()
    modifies rb, heap
    ensures heap.Valid()
    ensures err == FirstRejected(elems, parse)
    ensures heap.live == old(heap.live) + (set h | h in selectors)
    ensures forall h :: h in selectors ==> h !in old(heap.live)
    ensures Distinct(selectors)
    ensures |selectors| == FirstRejectedIndex(elems, parse)
    ensures err.None? ==> |rb.registrations| == |old(rb.registrations)| + |elems|
    ensures err.None? ==> forall k :: 0 <= k < |old(rb.registrations)| ==> rb.registrations[k] == old(rb.registrations)[k]
    ensures err.None? ==> forall k :: 0 <= k < |elems| ==>
              rb.registrations[|old(rb.registrations)| + k] == ElementContent(elems[k])
  {
    selectors := [];
    ghost var before := rb.registrations;
    for i := 0 to |elems|
      invariant heap.Valid()
      invariant heap.live == old(heap.live) + (set h | h in selectors)
      invariant forall h :: h in selectors ==> h !in old(heap.live)
      invariant Distinct(selectors) && |selectors| == i
      invariant forall k :: 0 <= k < i ==> parse(elems[k].selector).None?
      invariant |rb.registrations| == |before| + i
      invariant forall k :: 0 <= k < |before| ==> rb.registrations[k] == before[k]
      invariant forall k :: 0 <= k < i ==> rb.registrations[|before| + k] == ElementContent(elems[k])
    {
      var e := parse(elems[i].selector);
      if e.Some? {
        FirstRejectedIsEarliest(elems, parse, i);
        return selectors, e;
      }
      var s := heap.Alloc();
      selectors := selectors + [s];
      rb.AddElementContentHandlers(s, elems[i]);
    }
    NoneRejected(elems, parse);
    err := None;
  }

  lemma DistinctCons(h: Handle, hs: seq<Handle>)
    requires Distinct(hs) && h !in hs
    ensures Distinct([h] + hs)
  {
    assert forall k :: 0 <= k < |hs| ==> ([h] + hs)[k + 1] == hs[k];
  }

  /** The loop freeing the parsed selectors once the rewriter is built. */
  method FreeSelectors(selectors: seq<Handle>, heap: Heap)
    requires heap.Valid() && Distinct(selectors)
    requires forall h :: h in selectors ==> h in heap.live
    modifies heap
    ensures heap.Valid()
    ensures heap.live == old(heap.live) - (set h | h in selectors)
  {
    for i := 0 to |selectors|
      invariant heap.Valid()
      invariant heap.live == old(heap.live) - (set h | h in selectors[..i])
    {
      assert selectors[..i + 1] == selectors[..i] + [selectors[i]];
      assert selectors[i] !in selectors[..i] by {
        assert forall k :: 0 <= k < i ==> selectors[..i][k] == selectors[k];
      }
      heap.Release(selectors[i]);
    }
    assert selectors[..|selectors|] == selectors;
  }

  /** The first statements of NewWriter: the settings and the sink it builds with. */
  method ChooseSettings(target: Option<Target>, config: Option<Config>) returns (c: Config, sink: Sink)
    ensures c == EffectiveConfig(config)
    ensures sink == SelectSink(target, config)
  {
    if config.Some? {
      c := config.value;
      if c.sink.Some? {
        sink := c.sink.value;
      } else if target.None? {
        sink := Discard;
      } else {
        sink := Forward(target.value);
      }
    } else {
      c := DefaultConfig();
      if target.None? {
        sink := Discard;
      } else {
        sink := Forward(target.value);
      }
    }
  }

  /**
   * NewWriter: picks the sink and settings, registers the handlers, builds
   * the rewriter and frees the builder and the parsed selectors. On a parse
   * or build error it returns early and leaves the builder and the selectors
   * parsed so far allocated. `parse` and `buildFailure` are the library's
   * answers.
   */
  method NewWriter(target: Option<Target>, handlers: Option<Handlers>, config: Option<Config>,
                   parse: string -> Option<Error>, buildFailure: Option<string>, heap: Heap)
    returns (w: Writer?, err: Option<Error>, ghost leaked: seq<Handle>)
    requires heap.Valid()
    requires config.Some? ==> config.value.memory.Some?
    modifies heap
    ensures heap.Valid()
    ensures err == ConstructionError(handlers, parse, buildFailure)
    ensures w != null <==> err.None?
    ensures w != null ==>
              && fresh(w) && fresh(w.rewriter)
              && w.Valid() && w.err.None? && !w.closed && w.rewriter.log == []
              && w.target == target
              && w.rewriter.sink == SelectSink(target, config)
              && w.rewriter.config == EffectiveConfig(config)
              && w.rewriter.registrations == Registrations(handlers)
              && w.rewriter.pointers == []
              && w.rewriter.handle !in old(heap.live)
              && heap.live == old(heap.live) + {w.rewriter.handle}
    ensures w == null ==> old(heap.live) < heap.live
    ensures w == null ==>
              && heap.live == old(heap.live) + (set h | h in leaked)
              && Distinct(leaked) && (forall h :: h in leaked ==> h !in old(heap.live))
              && |leaked| == 1 + SelectorsParsed(handlers, parse)
  {
    var c, sink := ChooseSettings(target, config);
    var r;
    r, err, leaked := BuildRewriter(handlers, sink, c, parse, buildFailure, heap);
    if r == null {
      assert leaked[0] in heap.live;
      return null, err, leaked;
    }
    w := new Writer(target, r);
  }

  /**
   * The middle of NewWriter: a builder, the handler registrations and the
   * build; on success the builder and the parsed selectors are freed, on a
   * parse or build error they are returned, still allocated, as `leaked`.
   */
  method BuildRewriter(handlers: Option<Handlers>, sink: Sink, c: Config,
                       parse: string -> Option<Error>, buildFailure: Option<string>, heap: Heap)
    returns (r: Rewriter?, err: Option<Error>, ghost leaked: seq<Handle>)
    requires heap.Valid() && c.memory.Some?
    modifies heap
    ensures heap.Valid()
    ensures err == ConstructionError(handlers, parse, buildFailure)
    ensures r != null <==> err.None?
    ensures r != null ==>
              && fresh(r) && r.log == [] && r.pointers == []
              && r.sink == sink && r.config == c && r.registrations == Registrations(handlers)
              && r.handle !in old(heap.live)
              && heap.live == old(heap.live) + {r.handle}
    ensures r == null ==>
              && heap.live == old(heap.live) + (set h | h in leaked)
              && Distinct(leaked) && (forall h :: h in leaked ==> h !in old(heap.live))
              && |leaked| == 1 + SelectorsParsed(handlers, parse)
  {
    var rb, selectors, e;
    rb, selectors, e, leaked := PrepareBuilder(handlers, parse, heap);
    if e.Some? {
      return null, e, leaked;
    }
    r, err := FinishBuild(rb, selectors, sink, c, buildFailure, heap, old(heap.live), leaked);
  }

  /**
   * The end of NewWriter, once every handler is registered: the build, and
   * on success the release of the builder and of the parsed selectors.
   * `base` is what was allocated before the builder.
   */
  method FinishBuild(rb: Builder, selectors: seq<Handle>, sink: Sink, c: Config, buildFailure: Option<string>,
                     heap: Heap, ghost base: set<Handle>, ghost owned: seq<Handle>)
    returns (r: Rewriter?, err: Option<Error>)
    requires heap.Valid() && c.memory.Some?
    requires owned == [rb.handle] + selectors && Distinct(owned)
    requires forall h :: h in owned ==> h !in base
    requires heap.live == base + (set h | h in owned)
    modifies heap
    ensures heap.Valid()
    ensures err == (if buildFailure.Some? then Some(GetError(buildFailure.value)) else None)
    ensures r != null <==> err.None?
    ensures r == null ==> heap.live == old(heap.live)
    ensures r != null ==>
              && fresh(r) && r.log == [] && r.pointers == []
              && r.sink == sink && r.config == c && r.registrations == rb.registrations
              && r.handle !in base
              && heap.live == base + {r.handle}
  {
    assert (set h | h in owned) == {rb.handle} + (set h | h in selectors);
    assert Distinct(selectors) by {
      forall i, j | 0 <= i < j < |selectors| ensures selectors[i] != selectors[j] {
        assert selectors[i] == owned[i + 1] && selectors[j] == owned[j + 1];
      }
    }
    assert rb.handle !in selectors by {
      forall i | 0 <= i < |selectors| ensures selectors[i] != rb.handle {
        assert owned[0] == rb.handle && owned[i + 1] == selectors[i];
      }
    }
    r, err := rb.Build(sink, c, buildFailure, heap);
    if err.Some? {
      return;
    }
    rb.Free(heap);
    FreeSelectors(selectors, heap);
  }

  /**
   * The start of NewWriter: a fresh builder with every handler registered,
   * up to the first selector the library rejects. The builder and the
   * selectors parsed are allocated in either case.
   */
  method PrepareBuilder(handlers: Option<Handlers>, parse: string -> Option<Error>, heap: Heap)
    returns (rb: Builder, selectors: seq<Handle>, err: Option<Error>, ghost owned: seq<Handle>)
    requires heap.Valid()
    modifies heap
    ensures heap.Valid() && fresh(rb)
    ensures err == (if handlers.Some? then FirstRejected(handlers.value.elementContent, parse) else None)
    ensures err.None? ==> rb.registrations == Registrations(handlers)
    ensures owned == [rb.handle] + selectors && Distinct(owned)
    ensures forall h :: h in owned ==> h !in old(heap.live)
    ensures heap.live == old(heap.live) + (set h | h in owned)
    ensures |selectors| == SelectorsParsed(handlers, parse)
  {
    rb := new Builder(heap);
    selectors := [];
    err := None;
    if handlers.Some? {
      selectors, err := RegisterHandlers(rb, handlers.value, parse, heap);
    }
    DistinctCons(rb.handle, selectors);
    owned := [rb.handle] + selectors;
    assert (set h | h in owned) == {rb.handle} + (set h | h in selectors);
  }

  /**
   * What a rewrite leaves in its own buffer `buf` when the library emits
   * `chunks` to `sink`; `custom` is what a caller's own sink does.
   */
  function Collected(sink: Sink, chunks: seq<string>, buf: Target, custom: CustomEffect): string
  {
    Received(DeliverAll(sink, chunks, map[], custom), buf)
  }

  /**
   * RewriteString's buffer is a local variable (writer.go:134), so no sink
   * function a caller wrote before the call can reach it.
   */
  ghost predicate CannotReach(custom: CustomEffect, buf: Target)
  {
    forall id, chunk, buffers :: Received(custom(id, chunk, buffers), buf) == Received(buffers, buf)
  }

  /**
   * Only a sink forwarding to the buffer fills it, with every chunk in order;
   * any other sink, in particular a config's own sink, leaves it empty.
   */
  lemma CollectedOnlyThroughBuffer(sink: Sink, chunks: seq<string>, buf: Target, custom: CustomEffect)
    requires CannotReach(custom, buf)
    ensures sink == Forward(buf) ==> Collected(sink, chunks, buf, custom) == Concat(chunks)
    ensures sink != Forward(buf) ==> Collected(sink, chunks, buf, custom) == ""
  {
    if sink.Forward? {
      ForwardAppendsInOrder(sink.target, chunks, map[], custom);
    }
    if sink != Forward(buf) {
      OtherSinksLeaveBuffer(sink, chunks, map[], buf, custom);
    }
  }

  /**
   * A sink that does not forward to `buf` leaves it as it was: the
   * discarding sink touches nothing, another writer's sink writes elsewhere,
   * and a caller's sink cannot reach it.
   */
  lemma {:induction false} OtherSinksLeaveBuffer(sink: Sink, chunks: seq<string>, buffers: Buffers, buf: Target, custom: CustomEffect)
    requires sink != Forward(buf) && CannotReach(custom, buf)
    ensures Received(DeliverAll(sink, chunks, buffers, custom), buf) == Received(buffers, buf)
  {
    if chunks != [] {
      OtherSinksLeaveBuffer(sink, chunks[..|chunks| - 1], buffers, buf, custom);
    }
  }

  /**
   * The error RewriteString returns: the construction error, else the error
   * of writing a non-empty input, else the error of closing.
   */
  function RewriteError(s: string, handlers: Option<Handlers>, parse: string -> Option<Error>, buildFailure: Option<string>,
                        writeReply: Reply, endReply: Reply): (r: Option<Error>)
    ensures ConstructionError(handlers, parse, buildFailure).Some? ==> r == ConstructionError(handlers, parse, buildFailure)
    ensures r.None? <==> ConstructionError(handlers, parse, buildFailure).None? && (s == [] || writeReply.code == 0) && endReply.code == 0
  {
    var construction := ConstructionError(handlers, parse, buildFailure);
    if construction.Some? then construction
    else if s != [] && writeReply.code != 0 then ErrorOf(writeReply)
    else ErrorOf(endReply)
  }

  /**
   * RewriteString: builds a Writer into a fresh buffer `buf`, writes `s`,
   * closes, and returns the buffer, or "" with the first error. A failed
   * write returns without closing, so the rewriter stays allocated.
   * `chunks` is everything the library emits to its sink.
   */
  method RewriteString<V>(s: string, handlers: Option<Handlers>, config: Option<Config>,
                          parse: string -> Option<Error>, buildFailure: Option<string>,
                          writeReply: Reply, endReply: Reply, chunks: seq<string>, buf: Target, custom: CustomEffect,
                          heap: Heap, registry: Registry<V>)
    returns (out: string, e: Option<Error>, ghost leaked: seq<Handle>)
    requires heap.Valid() && registry.Valid()
    requires config.Some? ==> config.value.memory.Some?
    modifies heap, registry
    ensures heap.Valid() && registry.Valid()
    ensures e == RewriteError(s, handlers, parse, buildFailure, writeReply, endReply)
    ensures e.Some? ==> out == ""
    ensures e.None? ==> out == Collected(SelectSink(Some(buf), config), chunks, buf, custom)
    ensures e.None? ==> heap.live == old(heap.live)
    ensures ConstructionError(handlers, parse, buildFailure).None? && s != [] && writeReply.code != 0 ==>
              old(heap.live) < heap.live
    ensures heap.live == old(heap.live) + (set h | h in leaked)
    ensures Distinct(leaked) && forall h :: h in leaked ==> h !in old(heap.live)
    ensures ConstructionError(handlers, parse, buildFailure).Some? ==> |leaked| == 1 + SelectorsParsed(handlers, parse)
    ensures ConstructionError(handlers, parse, buildFailure).None? ==>
              |leaked| == (if s != [] && writeReply.code != 0 then 1 else 0)
  {
    var w, err;
    w, err, leaked := NewWriter(Some(buf), handlers, config, parse, buildFailure, heap);
    if err.Some? {
      return "", err, leaked;
    }
    e := WriteThenClose(w, s, writeReply, endReply, heap, registry);
    if e.Some? {
      out := "";
    } else {
      out := Collected(w.rewriter.sink, chunks, buf, custom);
    }
    if s != [] && writeReply.code != 0 {
      leaked := [w.rewriter.handle];
      assert (set h | h in leaked) == {w.rewriter.handle};
    } else {
      leaked := [];
      assert (set h | h in leaked) == {};
    }
  }

  /**
   * RewriteString after a successful construction: writes `s`, then closes
   * unless the write failed, in which case it returns at once and the
   * rewriter stays allocated.
   */
  method WriteThenClose<V>(w: Writer, s: string, writeReply: Reply, endReply: Reply, heap: Heap, registry: Registry<V>)
    returns (e: Option<Error>)
    requires heap.Valid() && registry.Valid()
    requires w.Valid() && !w.closed && w.err.None? && w.rewriter.handle in heap.live
    modifies w, w.rewriter, heap, registry
    ensures heap.Valid() && registry.Valid()
    ensures e == (if s != [] && writeReply.code != 0 then ErrorOf(writeReply) else ErrorOf(endReply))
    ensures s != [] && writeReply.code != 0 ==> heap.live == old(heap.live)
    ensures !(s != [] && writeReply.code != 0) ==> heap.live == old(heap.live) - {w.rewriter.handle}
  {
    var _, writeErr := w.WriteString(s, writeReply);
    if writeErr.Some? {
      return writeErr;
    }
    e := Close(w, endReply, heap, registry);
  }

  /**
   * Write never consults `closed`: after a successful Close, a non-empty
   * write still reaches the rewriter, which has been freed.
   */
  method WriteAfterClose<V>(w: Writer, p: string, endReply: Reply, writeReply: Reply, heap: Heap, registry: Registry<V>)
    returns (e: Option<Error>)
    requires heap.Valid() && registry.Valid()
    requires w.Valid() && !w.closed && w.err.None? && w.rewriter.handle in heap.live
    requires endReply.code == 0 && p != []
    modifies w, w.rewriter, heap, registry
    ensures UsedAfterFree(w.rewriter.log)
    ensures e == ErrorOf(writeReply)
  {
    var closeErr := Close(w, endReply, heap, registry);
    var at := |w.rewriter.log| - 1;
    var _, writeErr := w.Write(p, writeReply);
    assert w.rewriter.log[at].Freed? && w.rewriter.log[at + 1].Written?;
    e := writeErr;
  }

  /**
   * A second Close returns nil even when the first one reported that the
   * library could not finish the document.
   */
  method SecondCloseForgetsError<V>(w: Writer, endReply: Reply, heap: Heap, registry: Registry<V>)
    returns (first: Option<Error>, second: Option<Error>)
    requires heap.Valid() && registry.Valid()
    requires w.Valid() && !w.closed && w.err.None? && w.rewriter.handle in heap.live
    requires endReply.code != 0
    modifies w, w.rewriter, heap, registry
    ensures first == Some(GetError(endReply.lastError))
    ensures second.None?
    ensures Frees(w.rewriter.log) == 1 && Ends(w.rewriter.log) == 1
  {
    first := Close(w, endReply, heap, registry);
    second := Close(w, endReply, heap, registry);
  }
}
