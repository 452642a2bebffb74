/**
 * The content mutators and status-returning calls of an element (element.go).
 * Each mutator is a one-line call of `Alter` with the kind its name states
 * and the content mode its suffix states; `Alter` dispatches the kind to one
 * native entry point.
 */
module Elements {
  import opened Wrappers
  import opened Errors
  import opened Escaping
  import opened Mutation

  // The values of the elementAlter enumeration, in declaration order.
  const InsertBeforeStartTag: int := 0
  const InsertAfterStartTag: int := 1
  const InsertBeforeEndTag: int := 2
  const InsertAfterEndTag: int := 3
  const SetInnerContent: int := 4
  const Replace: int := 5

  /** The native entry point for an alteration kind; any other value panics. */
  function Dispatch(kind: int): (r: Outcome<NativeOp>)
    ensures r.Return? <==> InsertBeforeStartTag <= kind <= Replace
  {
    if kind == InsertBeforeStartTag then Return(ElementBefore)
    else if kind == InsertAfterStartTag then Return(ElementPrepend)
    else if kind == InsertBeforeEndTag then Return(ElementAppend)
    else if kind == InsertAfterEndTag then Return(ElementAfter)
    else if kind == SetInnerContent then Return(ElementSetInnerContent)
    else if kind == Replace then Return(ElementReplace)
    else Panic("not implemented")
  }

  /** Distinct kinds reach distinct native entry points, all of them element ones. */
  lemma DispatchIsInjective(a: int, b: int)
    requires Dispatch(a).Return? && Dispatch(b).Return?
    ensures Dispatch(a).value == Dispatch(b).value ==> a == b
    ensures Dispatch(a).value in {ElementBefore, ElementPrepend, ElementAppend, ElementAfter, ElementSetInnerContent, ElementReplace}
  {
  }

  /** alter: one native call with the dispatched entry point; nil exactly on code 0. */
  function Alter(content: string, kind: int, isHtml: bool, reply: Reply): (r: Outcome<Mutated>)
    ensures r.Return? <==> Dispatch(kind).Return?
    ensures r.Return? ==> r.value.call == Insert(Dispatch(kind).value, content, isHtml)
    ensures r.Return? ==> (r.value.err.None? <==> reply.code == 0)
    ensures r.Return? && r.value.err.Some? ==> r.value.err.value == GetError(reply.lastError)
  {
    match Dispatch(kind)
    case Return(op) => Return(Performed(Insert(op, content, isHtml), reply))
    case Panic(reason) => Panic(reason)
  }

  function InsertBeforeStartTagAsText(content: string, reply: Reply): (r: Mutated)
    ensures r.call == Insert(ElementBefore, content, false)
    ensures Inserted(r.call) == Escape(content)
    ensures r.err.None? <==> reply.code == 0
    ensures r.err.Some? ==> r.err.value == GetError(reply.lastError)
  {
    Alter(content, InsertBeforeStartTag, false, reply).value
  }

  function InsertBeforeStartTagAsHTML(content: string, reply: Reply): (r: Mutated)
    ensures r.call == Insert(ElementBefore, content, true)
    ensures Inserted(r.call) == content
    ensures r.err.None? <==> reply.code == 0
    ensures r.err.Some? ==> r.err.value == GetError(reply.lastError)
  {
    Alter(content, InsertBeforeStartTag, true, reply).value
  }

  function InsertAfterStartTagAsText(content: string, reply: Reply): (r: Mutated)
    ensures r.call == Insert(ElementPrepend, content, false)
    ensures Inserted(r.call) == Escape(content)
    ensures r.err.None? <==> reply.code == 0
    ensures r.err.Some? ==> r.err.value == GetError(reply.lastError)
  {
    Alter(content, InsertAfterStartTag, false, reply).value
  }

  function InsertAfterStartTagAsHTML(content: string, reply: Reply): (r: Mutated)
    ensures r.call == Insert(ElementPrepend, content, true)
    ensures Inserted(r.call) == content
    ensures r.err.None? <==> reply.code == 0
    ensures r.err.Some? ==> r.err.value == GetError(reply.lastError)
  {
    Alter(content, InsertAfterStartTag, true, reply).value
  }

  function InsertBeforeEndTagAsText(content: string, reply: Reply): (r: Mutated)
    ensures r.call == Insert(ElementAppend, content, false)
    ensures Inserted(r.call) == Escape(content)
    ensures r.err.None? <==> reply.code == 0
    ensures r.err.Some? ==> r.err.value == GetError(reply.lastError)
  {
    Alter(content, InsertBeforeEndTag, false, reply).value
  }

  function InsertBeforeEndTagAsHTML(content: string, reply: Reply): (r: Mutated)
    ensures r.call == Insert(ElementAppend, content, true)
    ensures Inserted(r.call) == content
    ensures r.err.None? <==> reply.code == 0
    ensures r.err.Some? ==> r.err.value == GetError(reply.lastError)
  {
    Alter(content, InsertBeforeEndTag, true, reply).value
  }

  function InsertAfterEndTagAsText(content: string, reply: Reply): (r: Mutated)
    ensures r.call == Insert(ElementAfter, content, false)
    ensures Inserted(r.call) == Escape(content)
    ensures r.err.None? <==> reply.code == 0
    ensures r.err.Some? ==> r.err.value == GetError(reply.lastError)
  {
    Alter(content, InsertAfterEndTag, false, reply).value
  }

  function InsertAfterEndTagAsHTML(content: string, reply: Reply): (r: Mutated)
    ensures r.call == Insert(ElementAfter, content, true)
    ensures Inserted(r.call) == content
    ensures r.err.None? <==> reply.code == 0
    ensures r.err.Some? ==> r.err.value == GetError(reply.lastError)
  {
    Alter(content, InsertAfterEndTag, true, reply).value
  }

  function SetInnerContentAsText(content: string, reply: Reply): (r: Mutated)
    ensures r.call == Insert(ElementSetInnerContent, content, false)
    ensures Inserted(r.call) == Escape(content)
    ensures r.err.None? <==> reply.code == 0
    ensures r.err.Some? ==> r.err.value == GetError(reply.lastError)
  {
    Alter(content, SetInnerContent, false, reply).value
  }

  function SetInnerContentAsHTML(content: string, reply: Reply): (r: Mutated)
    ensures r.call == Insert(ElementSetInnerContent, content, true)
    ensures Inserted(r.call) == content
    ensures r.err.None? <==> reply.code == 0
    ensures r.err.Some? ==> r.err.value == GetError(reply.lastError)
  {
    Alter(content, SetInnerContent, true, reply).value
  }

  function ReplaceAsText(content: string, reply: Reply): (r: Mutated)
    ensures r.call == Insert(ElementReplace, content, false)
    ensures Inserted(r.call) == Escape(content)
    ensures r.err.None? <==> reply.code == 0
    ensures r.err.Some? ==> r.err.value == GetError(reply.lastError)
  {
    Alter(content, Replace, false, reply).value
  }

  function ReplaceAsHTML(content: string, reply: Reply): (r: Mutated)
    ensures r.call == Insert(ElementReplace, content, true)
    ensures Inserted(r.call) == content
    ensures r.err.None? <==> reply.code == 0
    ensures r.err.Some? ==> r.err.value == GetError(reply.lastError)
  {
    Alter(content, Replace, true, reply).value
  }

  /** SetTagName: asks the engine to rename the element; nil exactly on code 0. */
  function SetTagName(name: string, reply: Reply): (r: Mutated)
    ensures r.call == TagNameSet(name)
    ensures r.err.None? <==> reply.code == 0
    ensures r.err.Some? ==> r.err.value == GetError(reply.lastError)
    ensures r.err.Some? && reply.lastError != "" ==> r.err.value.Message() == reply.lastError
  {
    Performed(TagNameSet(name), reply)
  }

  /**
   * HasAttribute: native code 1 means present, 0 absent, anything else is an
   * error reported with a false answer.
   */
  function HasAttribute(code: int, lastError: string): (r: (bool, Option<Error>))
    ensures r.0 <==> code == 1
    ensures r.1.None? <==> code == 0 || code == 1
    ensures r.1.Some? ==> r.1.value == GetError(lastError)
  {
    if code == 1 then (true, None)
    else if code == 0 then (false, None)
    else (false, Some(GetError(lastError)))
  }

  /**
   * AttributeValue: `value` is the native string (nil when the attribute is
   * missing). The last-error slot is always read; a non-empty message wins and
   * the value is then dropped.
   */
  function AttributeValue(value: Option<string>, lastError: string): (r: (string, Option<Error>))
    ensures lastError != "" ==> r == ("", Some(Failure(lastError)))
    ensures lastError == "" ==> r.1.None? && r.0 == (if value.Some? then value.value else "")
  {
    var text := if value.None? then "" else value.value;
    if lastError != "" then ("", Some(Failure(lastError))) else (text, None)
  }

  /** A missing attribute cannot be told apart from an empty one when no error is pending. */
  lemma MissingAttributeReadsAsEmpty()
    ensures AttributeValue(None, "") == AttributeValue(Some(""), "")
  {
  }
}
