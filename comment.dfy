/**
 * The content mutators of a comment (comment.go). As in element.go, each
 * mutator is a one-line call of `Alter` with a kind and a content mode.
 * One of them, InsertBeforeAsText, passes the "insert after" kind although
 * its documentation promises an insertion before the comment; it is modelled
 * as written, beside the documented behaviour.
 */
module Comments {
  import opened Wrappers
  import opened Errors
  import opened Escaping
  import opened Mutation

  // The values of the commentAlter enumeration, in declaration order.
  const InsertBefore: int := 0
  const InsertAfter: int := 1
  const Replace: int := 2

  /** The native entry point for an alteration kind; any other value panics. */
  function Dispatch(kind: int): (r: Outcome<NativeOp>)
    ensures r.Return? <==> InsertBefore <= kind <= Replace
  {
    if kind == InsertBefore then Return(CommentBefore)
    else if kind == InsertAfter then Return(CommentAfter)
    else if kind == Replace then Return(CommentReplace)
    else Panic("not implemented")
  }

  /** Distinct kinds reach distinct native entry points, all of them comment ones. */
  lemma DispatchIsInjective(a: int, b: int)
    requires Dispatch(a).Return? && Dispatch(b).Return?
    ensures Dispatch(a).value == Dispatch(b).value ==> a == b
    ensures Dispatch(a).value in {CommentBefore, CommentAfter, CommentReplace}
  {
  }

  /** alter: one native call with the dispatched entry point; nil exactly on code 0. */
  function Alter(content: string, kind: int, isHtml: bool, reply: Reply): (r: Outcome<Mutated>)
    ensures r.Return? <==> Dispatch(kind).Return?
    ensures r.Return? ==> r.value.call == Insert(Dispatch(kind).value, content, isHtml)
    ensures r.Return? ==> (r.value.err.None? <==> reply.code == 0)
    ensures r.Return? && r.value.err.Some? ==> r.value.err.value == GetError(reply.lastError)
  {
    match Dispatch(kind)
    case Return(op) => Return(Performed(Insert(op, content, isHtml), reply))
    case Panic(reason) => Panic(reason)
  }

  /** InsertBeforeAsText as written: it passes the "insert after" kind. */
  function InsertBeforeAsText(content: string, reply: Reply): (r: Mutated)
    ensures r.call == Insert(CommentAfter, content, false)
    ensures r.err.None? <==> reply.code == 0
    ensures r.err.Some? ==> r.err.value == GetError(reply.lastError)
  {
    Alter(content, InsertAfter, false, reply).value
  }

  /** InsertBeforeAsText as its documentation describes it: escaped content before the comment. */
  function InsertBeforeAsTextDocumented(content: string, reply: Reply): (r: Mutated)
    ensures r.call == Insert(CommentBefore, content, false)
    ensures IsBefore(r.call) && Inserted(r.call) == Escape(content)
    ensures r.err.None? <==> reply.code == 0
    ensures r.err.Some? ==> r.err.value == GetError(reply.lastError)
  {
    Alter(content, InsertBefore, false, reply).value
  }

  /**
   * The discrepancy: the escaped content of InsertBeforeAsText ends up behind
   * the comment, where the documented behaviour puts it in front.
   */
  lemma InsertBeforeAsTextLandsAfter(comment: string, content: string, reply: Reply)
    ensures Render(comment, [InsertBeforeAsText(content, reply).call]) == comment + Escape(content)
    ensures Render(comment, [InsertBeforeAsTextDocumented(content, reply).call]) == Escape(content) + comment
  {
    RenderAfter(comment, InsertBeforeAsText(content, reply).call);
    RenderBefore(comment, InsertBeforeAsTextDocumented(content, reply).call);
  }

  /** A concrete input on which the two differ. */
  lemma InsertBeforeAsTextCounterexample()
    ensures Render("<!--c-->", [InsertBeforeAsText("x", Reply(0, "")).call])
         != Render("<!--c-->", [InsertBeforeAsTextDocumented("x", Reply(0, "")).call])
  {
    InsertBeforeAsTextLandsAfter("<!--c-->", "x", Reply(0, ""));
    assert Escape("x") == "x" by {
      assert Escape("x") == EscapeChar('x') + Escape([]);
    }
    assert ("<!--c-->" + "x")[0] == '<';
    assert ("x" + "<!--c-->")[0] == 'x';
  }

  function InsertBeforeAsHTML(content: string, reply: Reply): (r: Mutated)
    ensures r.call == Insert(CommentBefore, content, true)
    ensures IsBefore(r.call) && Inserted(r.call) == content
    ensures r.err.None? <==> reply.code == 0
    ensures r.err.Some? ==> r.err.value == GetError(reply.lastError)
  {
    Alter(content, InsertBefore, true, reply).value
  }

  function InsertAfterAsText(content: string, reply: Reply): (r: Mutated)
    ensures r.call == Insert(CommentAfter, content, false)
    ensures IsAfter(r.call) && Inserted(r.call) == Escape(content)
    ensures r.err.None? <==> reply.code == 0
    ensures r.err.Some? ==> r.err.value == GetError(reply.lastError)
  {
    Alter(content, InsertAfter, false, reply).value
  }

  function InsertAfterAsHTML(content: string, reply: Reply): (r: Mutated)
    ensures r.call == Insert(CommentAfter, content, true)
    ensures IsAfter(r.call) && Inserted(r.call) == content
    ensures r.err.None? <==> reply.code == 0
    ensures r.err.Some? ==> r.err.value == GetError(reply.lastError)
  {
    Alter(content, InsertAfter, true, reply).value
  }

  function ReplaceAsText(content: string, reply: Reply): (r: Mutated)
    ensures r.call == Insert(CommentReplace, content, false)
    ensures IsReplace(r.call) && Inserted(r.call) == Escape(content)
    ensures r.err.None? <==> reply.code == 0
    ensures r.err.Some? ==> r.err.value == GetError(reply.lastError)
  {
    Alter(content, Replace, false, reply).value
  }

  function ReplaceAsHTML(content: string, reply: Reply): (r: Mutated)
    ensures r.call == Insert(CommentReplace, content, true)
    ensures IsReplace(r.call) && Inserted(r.call) == content
    ensures r.err.None? <==> reply.code == 0
    ensures r.err.Some? ==> r.err.value == GetError(reply.lastError)
  {
    Alter(content, Replace, true, reply).value
  }

  /** SetText: asks the engine to change the comment's text; nil exactly on code 0. */
  function SetText(text: string, reply: Reply): (r: Mutated)
    ensures r.call == CommentTextSet(text)
    ensures r.err.None? <==> reply.code == 0
    ensures r.err.Some? ==> r.err.value == GetError(reply.lastError)
  {
    Performed(CommentTextSet(text), reply)
  }

  /** The comment's text after a series of calls: the last text set, if any. */
  function Text(text: string, calls: seq<NativeCall>): string
  {
    if calls == [] then text
    else if calls[|calls| - 1].CommentTextSet? then calls[|calls| - 1].text
    else Text(text, calls[..|calls| - 1])
  }

  /** The serialized comment for its text after a series of calls. */
  function Serialized(text: string, calls: seq<NativeCall>): string
  {
    "<!--" + Text(text, calls) + "-->"
  }

  /** A successful SetText("Yo") turns `<!--Hey 42-->` into `<!--Yo-->`. */
  lemma SetTextScenario()
    ensures Serialized("Hey 42", []) == "<!--Hey 42-->"
    ensures Serialized("Hey 42", [SetText("Yo", Reply(0, "")).call]) == "<!--Yo-->"
    ensures SetText("Yo", Reply(0, "")).err.None?
  {
    var none: seq<NativeCall> := [];
    assert [SetText("Yo", Reply(0, "")).call][..0] == none;
  }
}
