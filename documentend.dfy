/**
 * Appending at the end of the document (documentend.go): two straight-line
 * calls of the same native entry point that differ only in the content mode.
 */
module DocumentEnds {
  import opened Wrappers
  import opened Errors
  import opened Escaping
  import opened Mutation

  function AppendAsText(content: string, reply: Reply): (r: Mutated)
    ensures r.call == Insert(DocEndAppend, content, false)
    ensures Inserted(r.call) == Escape(content)
    ensures r.err.None? <==> reply.code == 0
    ensures r.err.Some? ==> r.err.value == GetError(reply.lastError)
  {
    Performed(Insert(DocEndAppend, content, false), reply)
  }

  function AppendAsHTML(content: string, reply: Reply): (r: Mutated)
    ensures r.call == Insert(DocEndAppend, content, true)
    ensures Inserted(r.call) == content
    ensures r.err.None? <==> reply.code == 0
    ensures r.err.Some? ==> r.err.value == GetError(reply.lastError)
  {
    Performed(Insert(DocEndAppend, content, true), reply)
  }

  /** The text appended at the end of the document by a series of calls, in call order. */
  function Appended(calls: seq<NativeCall>): string
  {
    if calls == [] then ""
    else
      var last := calls[|calls| - 1];
      Appended(calls[..|calls| - 1]) + (if last.Insert? && last.op == DocEndAppend then Inserted(last) else "")
  }

  /** Appends made only as text never put `<` or `>` into the output. */
  lemma {:induction false} TextAppendsAddNoMarkup(contents: seq<string>, reply: Reply)
    ensures var calls := seq(|contents|, k requires 0 <= k < |contents| => AppendAsText(contents[k], reply).call);
            forall i :: 0 <= i < |Appended(calls)| ==> Appended(calls)[i] != '<' && Appended(calls)[i] != '>'
  {
    if contents != [] {
      var front := contents[..|contents| - 1];
      TextAppendsAddNoMarkup(front, reply);
      var calls := seq(|contents|, k requires 0 <= k < |contents| => AppendAsText(contents[k], reply).call);
      var frontCalls := seq(|front|, k requires 0 <= k < |front| => AppendAsText(front[k], reply).call);
      assert calls[..|calls| - 1] == frontCalls;
    }
  }

  /** Two appends: the first one's text, then the second one's. */
  lemma AppendedTwo(first: NativeCall, second: NativeCall)
    requires first.Insert? && first.op == DocEndAppend
    requires second.Insert? && second.op == DocEndAppend
    ensures Appended([first, second]) == Inserted(first) + Inserted(second)
  {
    var none: seq<NativeCall> := [];
    assert [first, second][..1] == [first] && [first][..0] == none;
    assert Appended([first]) == "" + Inserted(first) == Inserted(first);
  }

  /** Successive appends of "<!--appended text-->" as HTML and "hello & world" as text. */
  lemma AppendScenario()
    ensures Appended([AppendAsHTML("<!--appended text-->", Reply(0, "")).call, AppendAsText("hello & world", Reply(0, "")).call])
         == "<!--appended text-->hello &amp; world"
  {
    var html := AppendAsHTML("<!--appended text-->", Reply(0, "")).call;
    var text := AppendAsText("hello & world", Reply(0, "")).call;
    AppendedTwo(html, text);
    TextAppendScenario(text);
    JoinScenario(Inserted(html), Inserted(text));
  }

  lemma TextAppendScenario(text: NativeCall)
    requires text == AppendAsText("hello & world", Reply(0, "")).call
    ensures Inserted(text) == "hello &amp; world"
  {
    EscapeAmpersandPhrase();
  }

  /** Joining the two literal parts, kept apart so that the solver compares short strings. */
  lemma JoinScenario(html: string, text: string)
    requires html == "<!--appended text-->" && text == "hello &amp; world"
    ensures html + text == "<!--appended text-->hello &amp; world"
  {
  }

  /** "hello & world" inserted as text reaches the output as "hello &amp; world". */
  lemma EscapeAmpersandPhrase()
    ensures Escape("hello & world") == "hello &amp; world"
  {
    SplitAtAmpersand();
    EscapeAround("hello ", '&', " world");
  }

  /** The phrase split around its ampersand, kept apart so that the solver compares short strings. */
  lemma SplitAtAmpersand()
    ensures "hello " + ['&'] + " world" == "hello & world"
    ensures "hello " + EscapeChar('&') + " world" == "hello &amp; world"
  {
  }
}
