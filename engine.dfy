/**
 * The thin layer over the native rewriter (rewriter.go) and the native
 * objects it is built from. The native library itself is an oracle: each
 * call's answer is a parameter, and every call that reaches a rewriter is
 * recorded in its ghost trace so the Writer's protocol can be stated over it.
 */
module Engine {
  import opened Wrappers
  import opened Errors
  import opened Pointer
  import opened Settings

  /** An address handed out by the C allocator. */
  type Handle = nat

  /**
   * The C heap, as far as the binding's own objects go: which native
   * builders, selectors and rewriters are currently allocated.
   */
  class Heap {
    var live: set<Handle>
    var next: Handle

    ghost predicate Valid()
      reads this
    {
      forall h :: h in live ==> h < next
    }

    constructor ()
      ensures Valid() && live == {}
    {
      live := {};
      next := 0;
    }

    /** A native constructor: a handle that is not live yet, and is live now. */
    method Alloc() returns (h: Handle)
      requires Valid()
      modifies this
      ensures Valid()
      ensures h !in old(live) && live == old(live) + {h}
    {
      h := next;
      next := next + 1;
      live := live + {h};
    }

    /** A native destructor; freeing an object twice is outside the C contract. */
    method Release(h: Handle)
      requires Valid() && h in live
      modifies this
      ensures Valid()
      ensures live == old(live) - {h}
    {
      live := live - {h};
    }
  }

  /**
   * One call into a native rewriter. `Written` records the buffer the data
   * pointer addresses and the length passed alongside it; `ok` says whether
   * the library answered with code 0.
   */
  datatype Call = Written(buffer: string, length: nat, ok: bool) | Ended(ok: bool) | Freed

  predicate Failed(c: Call)
  {
    (c.Written? || c.Ended?) && !c.ok
  }

  /** How many times the rewriter was freed. */
  function Frees(log: seq<Call>): nat
  {
    if log == [] then 0 else Frees(log[..|log| - 1]) + (if log[|log| - 1].Freed? then 1 else 0)
  }

  /** How many times the input was ended. */
  function Ends(log: seq<Call>): nat
  {
    if log == [] then 0 else Ends(log[..|log| - 1]) + (if log[|log| - 1].Ended? then 1 else 0)
  }

  /** How many calls failed. */
  function Failures(log: seq<Call>): nat
  {
    if log == [] then 0 else Failures(log[..|log| - 1]) + (if Failed(log[|log| - 1]) then 1 else 0)
  }

  /** The counts grow by the call appended, and by nothing else. */
  lemma CountsAppend(log: seq<Call>, c: Call)
    ensures Frees(log + [c]) == Frees(log) + (if c.Freed? then 1 else 0)
    ensures Ends(log + [c]) == Ends(log) + (if c.Ended? then 1 else 0)
    ensures Failures(log + [c]) == Failures(log) + (if Failed(c) then 1 else 0)
  {
    assert (log + [c])[..|log|] == log;
  }

  /** No failure is counted exactly when no call of the trace failed. */
  lemma {:induction false} NoFailures(log: seq<Call>)
    ensures Failures(log) == 0 <==> forall i :: 0 <= i < |log| ==> !Failed(log[i])
  {
    if log != [] {
      NoFailures(log[..|log| - 1]);
      assert forall i :: 0 <= i < |log| - 1 ==> log[..|log| - 1][i] == log[i];
    }
  }

  /** No end is counted exactly when the trace holds no end. */
  lemma {:induction false} NoEnds(log: seq<Call>)
    ensures Ends(log) == 0 <==> forall i :: 0 <= i < |log| ==> !log[i].Ended?
  {
    if log != [] {
      NoEnds(log[..|log| - 1]);
      assert forall i :: 0 <= i < |log| - 1 ==> log[..|log| - 1][i] == log[i];
    }
  }

  /** Some call reached the rewriter after it had been freed. */
  ghost predicate UsedAfterFree(log: seq<Call>)
  {
    exists i, j :: 0 <= i < j < |log| && log[i].Freed? && !log[j].Freed?
  }

  /**
   * The data pointer passed for `p`: Go cannot take the address of the first
   * byte of an empty slice, so an empty `p` is replaced by a one-byte dummy
   * buffer, while the length passed stays that of `p`.
   */
  function Buffer(p: string): (b: string)
    ensures |b| > 0
    ensures |p| <= |b| && b[..|p|] == p
    ensures p != [] ==> b == p
  {
    if p == [] then [0 as char] else p
  }

  /** C.CString: a NUL-terminated copy of `s`. */
  function CString(s: string): (b: string)
    ensures |b| == |s| + 1 && b[..|s|] == s && b[|s|] == 0 as char
  {
    s + [0 as char]
  }

  /** One call registering handlers on a native builder (builder.go). */
  datatype Registration =
    | DocumentContent(documentHandler: DocumentContentHandler)
    | ElementContent(elementHandler: ElementContentHandler)

  /**
   * The native object of `rewriter`: its handle, the registry addresses it
   * owns, and, as ghost, what it was built with and every call made on it.
   */
  class Rewriter {
    const handle: Handle
    const pointers: seq<Key>
    const sink: Sink
    const config: Config
    ghost const registrations: seq<Registration>
    ghost var log: seq<Call>

    constructor (handle: Handle, pointers: seq<Key>, sink: Sink, config: Config, ghost registrations: seq<Registration>)
      ensures this.handle == handle && this.pointers == pointers
      ensures this.sink == sink && this.config == config && this.registrations == registrations
      ensures log == []
    {
      this.handle := handle;
      this.pointers := pointers;
      this.sink := sink;
      this.config := config;
      this.registrations := registrations;
      log := [];
    }

    /**
     * rewriter.Write: feeds `p` to the library. Code 0 means every byte was
     * consumed; otherwise nothing counts as written and the pending error is
     * returned.
     */
    method Write(p: string, reply: Reply) returns (n: nat, err: Option<Error>)
      modifies this
      ensures log == old(log) + [Written(Buffer(p), |p|, reply.code == 0)]
      ensures err == ErrorOf(reply)
      ensures err.None? ==> n == |p|
      ensures err.Some? ==> n == 0
    {
      var buffer := Buffer(p);
      log := log + [Written(buffer, |p|, reply.code == 0)];
      if reply.code == 0 {
        return |p|, None;
      }
      return 0, Some(GetError(reply.lastError));
    }

    /** rewriter.WriteString: like `Write`, through a NUL-terminated copy of `chunk`. */
    method WriteString(chunk: string, reply: Reply) returns (n: nat, err: Option<Error>)
      modifies this
      ensures log == old(log) + [Written(CString(chunk), |chunk|, reply.code == 0)]
      ensures err == ErrorOf(reply)
      ensures err.None? ==> n == |chunk|
      ensures err.Some? ==> n == 0
    {
      var chunkC := CString(chunk);
      log := log + [Written(chunkC, |chunk|, reply.code == 0)];
      if reply.code == 0 {
        return |chunk|, None;
      }
      return 0, Some(GetError(reply.lastError));
    }

    /** rewriter.End: signals the end of the input; nil exactly when the library answers 0. */
    method End(reply: Reply) returns (err: Option<Error>)
      modifies this
      ensures log == old(log) + [Ended(reply.code == 0)]
      ensures err == ErrorOf(reply)
    {
      log := log + [Ended(reply.code == 0)];
      if reply.code == 0 {
        return None;
      }
      return Some(GetError(reply.lastError));
    }
  }

  /**
   * rewriter.Free: a nil rewriter is ignored; otherwise the native rewriter
   * is released and every registry address it owns is unreferenced, in order.
   */
  method Free<V>(r: Rewriter?, heap: Heap, registry: Registry<V>)
    requires heap.Valid() && registry.Valid()
    requires r != null ==> r.handle in heap.live
    modifies if r == null then {} else {r}, heap, registry
    ensures heap.Valid() && registry.Valid()
    ensures r == null ==> unchanged(heap, registry)
    ensures r != null ==> r.log == old(r.log) + [Freed]
    ensures r != null ==> heap.live == old(heap.live) - {r.handle}
    ensures r != null ==> registry.entries == ForgetAll(old(registry.entries), r.pointers)
  {
    if r == null {
      return;
    }
    heap.Release(r.handle);
    r.log := r.log + [Freed];
    var i := 0;
    while i < |r.pointers|
      modifies registry
      invariant 0 <= i <= |r.pointers|
      invariant registry.Valid()
      invariant registry.entries == ForgetAll(old(registry.entries), r.pointers[..i])
    {
      assert r.pointers[..i + 1][..i] == r.pointers[..i];
      registry.Unref(r.pointers[i]);
      i := i + 1;
    }
    assert r.pointers[..|r.pointers|] == r.pointers;
  }

  /** The native rewriter builder: a handle and the handlers registered on it so far. */
  class Builder {
    const handle: Handle
    ghost var registrations: seq<Registration>

    /** newRewriterBuilder. */
    constructor (heap: Heap)
      requires heap.Valid()
      modifies heap
      ensures heap.Valid()
      ensures handle !in old(heap.live) && heap.live == old(heap.live) + {handle}
      ensures registrations == []
    {
      var h := heap.Alloc();
      handle := h;
      registrations := [];
    }

    /** AddDocumentContentHandlers: registers handlers for the whole document. */
    method AddDocumentContentHandlers(dh: DocumentContentHandler)
      modifies this
      ensures registrations == old(registrations) + [DocumentContent(dh)]
    {
      registrations := registrations + [DocumentContent(dh)];
    }

    /** AddElementContentHandlers: registers handlers for a parsed selector. */
    method AddElementContentHandlers(selector: Handle, eh: ElementContentHandler)
      modifies this
      ensures registrations == old(registrations) + [ElementContent(eh)]
    {
      registrations := registrations + [ElementContent(eh)];
    }

    /**
     * Build: the library either returns a new rewriter or a null pointer, in
     * which case the pending error is returned. `failure` is the library's
     * answer: `None` for a rewriter, `Some` of the last-error message for null.
     */
    method Build(sink: Sink, config: Config, failure: Option<string>, heap: Heap) returns (r: Rewriter?, err: Option<Error>)
      requires heap.Valid()
      requires config.memory.Some?
      modifies heap
      ensures heap.Valid()
      ensures failure.None? ==> err.None? && r != null && fresh(r)
      ensures failure.None? ==> r.handle !in old(heap.live) && heap.live == old(heap.live) + {r.handle}
      ensures failure.None? ==> r.log == [] && r.pointers == []
      ensures failure.None? ==> r.sink == sink && r.config == config && r.registrations == registrations
      ensures failure.Some? ==> r == null && err == Some(GetError(failure.value)) && heap.live == old(heap.live)
    {
      if failure.Some? {
        return null, Some(GetError(failure.value));
      }
      var h := heap.Alloc();
      r := new Rewriter(h, [], sink, config, registrations);
      err := None;
    }

    /** rewriterBuilder.Free. */
    method Free(heap: Heap)
      requires heap.Valid() && handle in heap.live
      modifies heap
      ensures heap.Valid()
      ensures heap.live == old(heap.live) - {handle}
    {
      heap.Release(handle);
    }
  }
}
