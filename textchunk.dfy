/** The content mutators of a text chunk (textchunk.go), dispatched as in comment.go. */
module TextChunks {
  import opened Wrappers
  import opened Errors
  import opened Escaping
  import opened Mutation

  // The values of the textChunkAlter enumeration, in declaration order.
  const InsertBefore: int := 0
  const InsertAfter: int := 1
  const Replace: int := 2

  /** The native entry point for an alteration kind; any other value panics. */
  function Dispatch(kind: int): (r: Outcome<NativeOp>)
    ensures r.Return? <==> InsertBefore <= kind <= Replace
  {
    if kind == InsertBefore then Return(TextChunkBefore)
    else if kind == InsertAfter then Return(TextChunkAfter)
    else if kind == Replace then Return(TextChunkReplace)
    else Panic("not implemented")
  }

  /** Distinct kinds reach distinct native entry points, all of them text-chunk ones. */
  lemma DispatchIsInjective(a: int, b: int)
    requires Dispatch(a).Return? && Dispatch(b).Return?
    ensures Dispatch(a).value == Dispatch(b).value ==> a == b
    ensures Dispatch(a).value in {TextChunkBefore, TextChunkAfter, TextChunkReplace}
  {
  }

  /** alter: one native call with the dispatched entry point; nil exactly on code 0. */
  function Alter(content: string, kind: int, isHtml: bool, reply: Reply): (r: Outcome<Mutated>)
    ensures r.Return? <==> Dispatch(kind).Return?
    ensures r.Return? ==> r.value.call == Insert(Dispatch(kind).value, content, isHtml)
    ensures r.Return? ==> (r.value.err.None? <==> reply.code == 0)
    ensures r.Return? && r.value.err.Some? ==> r.value.err.value == GetError(reply.lastError)
  {
    match Dispatch(kind)
    case Return(op) => Return(Performed(Insert(op, content, isHtml), reply))
    case Panic(reason) => Panic(reason)
  }

  function InsertBeforeAsText(content: string, reply: Reply): (r: Mutated)
    ensures r.call == Insert(TextChunkBefore, content, false)
    ensures IsBefore(r.call) && Inserted(r.call) == Escape(content)
    ensures r.err.None? <==> reply.code == 0
    ensures r.err.Some? ==> r.err.value == GetError(reply.lastError)
  {
    Alter(content, InsertBefore, false, reply).value
  }

  function InsertBeforeAsHTML(content: string, reply: Reply): (r: Mutated)
    ensures r.call == Insert(TextChunkBefore, content, true)
    ensures IsBefore(r.call) && Inserted(r.call) == content
    ensures r.err.None? <==> reply.code == 0
    ensures r.err.Some? ==> r.err.value == GetError(reply.lastError)
  {
    Alter(content, InsertBefore, true, reply).value
  }

  function InsertAfterAsText(content: string, reply: Reply): (r: Mutated)
    ensures r.call == Insert(TextChunkAfter, content, false)
    ensures IsAfter(r.call) && Inserted(r.call) == Escape(content)
    ensures r.err.None? <==> reply.code == 0
    ensures r.err.Some? ==> r.err.value == GetError(reply.lastError)
  {
    Alter(content, InsertAfter, false, reply).value
  }

  function InsertAfterAsHTML(content: string, reply: Reply): (r: Mutated)
    ensures r.call == Insert(TextChunkAfter, content, true)
    ensures IsAfter(r.call) && Inserted(r.call) == content
    ensures r.err.None? <==> reply.code == 0
    ensures r.err.Some? ==> r.err.value == GetError(reply.lastError)
  {
    Alter(content, InsertAfter, true, reply).value
  }

  function ReplaceAsText(content: string, reply: Reply): (r: Mutated)
    ensures r.call == Insert(TextChunkReplace, content, false)
    ensures IsReplace(r.call) && Inserted(r.call) == Escape(content)
    ensures r.err.None? <==> reply.code == 0
    ensures r.err.Some? ==> r.err.value == GetError(reply.lastError)
  {
    Alter(content, Replace, false, reply).value
  }

  function ReplaceAsHTML(content: string, reply: Reply): (r: Mutated)
    ensures r.call == Insert(TextChunkReplace, content, true)
    ensures IsReplace(r.call) && Inserted(r.call) == content
    ensures r.err.None? <==> reply.code == 0
    ensures r.err.Some? ==> r.err.value == GetError(reply.lastError)
  {
    Alter(content, Replace, true, reply).value
  }

  /**
   * A before-insertion and an after-insertion frame the chunk: markup inserted
   * as HTML stays markup, text inserted after it is escaped.
   */
  lemma {:induction false} FramedChunk(chunk: string, before: string, after: string, reply: Reply)
    ensures Render(chunk, [InsertBeforeAsHTML(before, reply).call, InsertAfterAsText(after, reply).call])
         == before + chunk + Escape(after)
  {
    var b, a := InsertBeforeAsHTML(before, reply).call, InsertAfterAsText(after, reply).call;
    var calls := [b, a];
    var none: seq<NativeCall> := [];
    assert calls[..1] == [b] && [b][..0] == none;
    assert Befores(calls) == Befores([b]) == Befores(none) + before;
    assert Afters(calls) == Afters([b]) + Escape(after);
    assert Afters([b]) == Afters(none);
    assert Body(chunk, calls) == Body(chunk, [b]) == Body(chunk, none);
    calc {
      Render(chunk, calls);
      Befores(calls) + Body(chunk, calls) + Afters(calls);
      ("" + before) + chunk + ("" + Escape(after));
      { assert "" + before == before && "" + Escape(after) == Escape(after); }
      before + chunk + Escape(after);
    }
  }

  /** The chunk "Hey 42" framed by "<div>" as HTML and "</div>" as text. */
  lemma FramedChunkScenario()
    ensures Render("Hey 42", [InsertBeforeAsHTML("<div>", Reply(0, "")).call, InsertAfterAsText("</div>", Reply(0, "")).call])
         == "<div>Hey 42&lt;/div&gt;"
  {
    FramedChunk("Hey 42", "<div>", "</div>", Reply(0, ""));
    EscapeClosingDiv();
    JoinFrame("<div>", "Hey 42", Escape("</div>"));
  }

  /** Joining the three literal parts, kept apart so that the solver compares short strings. */
  lemma JoinFrame(before: string, chunk: string, after: string)
    requires before == "<div>" && chunk == "Hey 42" && after == "&lt;/div&gt;"
    ensures before + chunk + after == "<div>Hey 42&lt;/div&gt;"
  {
  }

  /** The closing tag "</div>" inserted as text reaches the output as "&lt;/div&gt;". */
  lemma EscapeClosingDiv()
    ensures Escape("</div>") == "&lt;/div&gt;"
  {
    var lt, body, gt := "<", "/div", ">";
    assert lt + body + gt == "</div>";
    EscapeConcat(lt + body, gt);
    EscapeConcat(lt, body);
    assert Escape(lt) == EscapeChar('<') + Escape([]) == "&lt;";
    assert Escape(gt) == EscapeChar('>') + Escape([]) == "&gt;";
    NoSpecialsUnchanged(body);
    assert "&lt;" + "/div" + "&gt;" == "&lt;/div&gt;";
  }
}
