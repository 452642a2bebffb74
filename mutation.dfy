/**
 * What the content mutators of element.go, comment.go, textchunk.go and
 * documentend.go ask of the native engine, and how the engine renders the
 * result as those files document it.
 */
module Mutation {
  import opened Wrappers
  import opened Errors
  import opened Escaping

  /** The native mutation entry points the binding calls. */
  datatype NativeOp =
    | ElementBefore | ElementPrepend | ElementAppend | ElementAfter
    | ElementSetInnerContent | ElementReplace
    | CommentBefore | CommentAfter | CommentReplace
    | TextChunkBefore | TextChunkAfter | TextChunkReplace
    | DocEndAppend

  /** One call into the native engine made by a mutator. */
  datatype NativeCall =
    | Insert(op: NativeOp, content: string, isHtml: bool)
    | TagNameSet(name: string)
    | CommentTextSet(text: string)

  /** What a mutator does: the native call it makes and the Go error it returns. */
  datatype Mutated = Mutated(call: NativeCall, err: Option<Error>)

  /** The mutator's result for a native reply: the call it made, and nil exactly on code 0. */
  function Performed(call: NativeCall, reply: Reply): (r: Mutated)
    ensures r.call == call
    ensures r.err.None? <==> reply.code == 0
    ensures r.err.Some? ==> r.err.value == GetError(reply.lastError)
  {
    Mutated(call, ErrorOf(reply))
  }

  /** The text that an insertion puts into the output: escaped in text mode, as is in HTML mode. */
  function Inserted(call: NativeCall): string
    requires call.Insert?
  {
    if call.isHtml then call.content else Escape(call.content)
  }

  predicate IsBefore(call: NativeCall)
  {
    call.Insert? && (call.op == CommentBefore || call.op == TextChunkBefore)
  }

  predicate IsAfter(call: NativeCall)
  {
    call.Insert? && (call.op == CommentAfter || call.op == TextChunkAfter)
  }

  predicate IsReplace(call: NativeCall)
  {
    call.Insert? && (call.op == CommentReplace || call.op == TextChunkReplace)
  }

  /** Insertions placed before a comment or text chunk, in call order. */
  function Befores(calls: seq<NativeCall>): string
  {
    if calls == [] then ""
    else
      var last := calls[|calls| - 1];
      Befores(calls[..|calls| - 1]) + (if IsBefore(last) then Inserted(last) else "")
  }

  /** Insertions placed after a comment or text chunk, in call order. */
  function Afters(calls: seq<NativeCall>): string
  {
    if calls == [] then ""
    else
      var last := calls[|calls| - 1];
      Afters(calls[..|calls| - 1]) + (if IsAfter(last) then Inserted(last) else "")
  }

  /** The node itself, or the payload of the last replacement when there was one. */
  function Body(node: string, calls: seq<NativeCall>): string
  {
    if calls == [] then node
    else
      var last := calls[|calls| - 1];
      if IsReplace(last) then Inserted(last) else Body(node, calls[..|calls| - 1])
  }

  /**
   * The output for a comment or text chunk whose serialization is `node` after
   * the given mutator calls: the before-insertions, the node (or its
   * replacement), then the after-insertions.
   */
  function Render(node: string, calls: seq<NativeCall>): string
  {
    Befores(calls) + Body(node, calls) + Afters(calls)
  }

  /** A single insertion before a node lands in front of it. */
  lemma RenderBefore(node: string, call: NativeCall)
    requires IsBefore(call)
    ensures Render(node, [call]) == Inserted(call) + node
  {
    var none: seq<NativeCall> := [];
    assert [call][..0] == none;
    assert Befores(none) == "" && Afters(none) == "" && Body(node, none) == node;
    assert Befores([call]) == Befores(none) + Inserted(call);
    assert Afters([call]) == Afters(none);
    assert Body(node, [call]) == Body(node, none);
    var text := Inserted(call);
    calc {
      Render(node, [call]);
      Befores([call]) + Body(node, [call]) + Afters([call]);
      ("" + text) + node + "";
      { assert "" + text == text && text + node + "" == text + node; }
      text + node;
    }
  }

  /** A single insertion after a node lands behind it. */
  lemma RenderAfter(node: string, call: NativeCall)
    requires IsAfter(call)
    ensures Render(node, [call]) == node + Inserted(call)
  {
    var none: seq<NativeCall> := [];
    assert [call][..0] == none;
    assert Befores(none) == "" && Afters(none) == "" && Body(node, none) == node;
    assert Befores([call]) == Befores(none);
    assert Afters([call]) == Afters(none) + Inserted(call);
    assert Body(node, [call]) == Body(node, none);
    calc {
      Render(node, [call]);
      Befores([call]) + Body(node, [call]) + Afters([call]);
      "" + node + Inserted(call);
      { assert "" + node == node; }
      node + Inserted(call);
    }
  }

  /** A single replacement stands in place of the node. */
  lemma RenderReplace(node: string, call: NativeCall)
    requires IsReplace(call)
    ensures Render(node, [call]) == Inserted(call)
  {
    var none: seq<NativeCall> := [];
    assert [call][..0] == none;
    assert Befores(none) == "" && Afters(none) == "";
    assert Befores([call]) == Befores(none);
    assert Afters([call]) == Afters(none);
    assert Body(node, [call]) == Inserted(call);
  }

  /** Text-mode insertions contribute no `<` and no `>` around the node. */
  lemma {:induction false} TextInsertionsAddNoMarkup(calls: seq<NativeCall>)
    requires forall k :: 0 <= k < |calls| ==> calls[k].Insert? && !calls[k].isHtml
    ensures forall i :: 0 <= i < |Befores(calls)| ==> Befores(calls)[i] != '<' && Befores(calls)[i] != '>'
    ensures forall i :: 0 <= i < |Afters(calls)| ==> Afters(calls)[i] != '<' && Afters(calls)[i] != '>'
  {
    if calls != [] {
      var front := calls[..|calls| - 1];
      TextInsertionsAddNoMarkup(front);
    }
  }
}
