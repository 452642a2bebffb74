/**
 * The escaping rule the binding documents for every "AsText" mutator:
 * `<` becomes `&lt;`, `>` becomes `&gt;`, `&` becomes `&amp;`, and nothing
 * else changes. "AsHTML" content is inserted as is. The escaping itself is
 * done by the native engine; this module states the documented contract.
 */
module Escaping {

  /** The escaped form of one character. */
  function EscapeChar(c: char): (r: string)
  {
    if c == '<' then "&lt;"
    else if c == '>' then "&gt;"
    else if c == '&' then "&amp;"
    else [c]
  }

  /** True of the three characters that the rule rewrites. */
  predicate Special(c: char)
  {
    c == '<' || c == '>' || c == '&'
  }

  /** The text-mode transformation applied to inserted content. */
  function Escape(s: string): (r: string)
    ensures |r| >= |s|
    ensures forall i :: 0 <= i < |r| ==> r[i] != '<' && r[i] != '>'
  {
    if s == [] then [] else EscapeChar(s[0]) + Escape(s[1..])
  }

  /** The inverse transformation: decodes the three entities and keeps everything else. */
  function Unescape(s: string): string
  {
    if s == [] then []
    else if |s| >= 4 && s[..4] == "&lt;" then ['<'] + Unescape(s[4..])
    else if |s| >= 4 && s[..4] == "&gt;" then ['>'] + Unescape(s[4..])
    else if |s| >= 5 && s[..5] == "&amp;" then ['&'] + Unescape(s[5..])
    else [s[0]] + Unescape(s[1..])
  }

  /** Escaping loses nothing: decoding the escaped text gives back the original. */
  lemma {:induction false} UnescapeEscape(s: string)
    ensures Unescape(Escape(s)) == s
  {
    if s != [] {
      var c, rest := s[0], s[1..];
      var tail := Escape(rest);
      assert Escape(s) == EscapeChar(c) + tail;
      UnescapeEscape(rest);
      if c == '<' {
        assert (EscapeChar(c) + tail)[..4] == "&lt;";
        assert (EscapeChar(c) + tail)[4..] == tail;
      } else if c == '>' {
        assert (EscapeChar(c) + tail)[..4] == "&gt;";
        assert (EscapeChar(c) + tail)[4..] == tail;
      } else if c == '&' {
        assert (EscapeChar(c) + tail)[1] == 'a';
        assert (EscapeChar(c) + tail)[..5] == "&amp;";
        assert (EscapeChar(c) + tail)[5..] == tail;
      } else {
        assert ([c] + tail)[0] == c;
        assert ([c] + tail)[1..] == tail;
      }
      assert s == [c] + rest;
    }
  }

  /** True when `s` begins with `p`. */
  predicate StartsWith(s: string, p: string)
  {
    |p| <= |s| && s[..|p|] == p
  }

  /** Every `&` in escaped text opens one of the three entities, so no raw `&` survives. */
  lemma {:induction false} EscapedAmpersandsAreEntities(s: string, i: nat)
    requires i < |Escape(s)| && Escape(s)[i] == '&'
    ensures StartsWith(Escape(s)[i..], "&lt;") || StartsWith(Escape(s)[i..], "&gt;") || StartsWith(Escape(s)[i..], "&amp;")
  {
    var head, tail := EscapeChar(s[0]), Escape(s[1..]);
    assert Escape(s) == head + tail;
    if i < |head| {
      assert Special(s[0]) && i == 0;
      assert Escape(s)[i..] == head + tail;
    } else {
      assert Escape(s)[i] == tail[i - |head|];
      EscapedAmpersandsAreEntities(s[1..], i - |head|);
      assert Escape(s)[i..] == tail[i - |head|..];
    }
  }

  /** Text without any of the three characters is inserted unchanged, and only such text is. */
  lemma {:induction false} EscapeIdentity(s: string)
    ensures Escape(s) == s <==> forall i :: 0 <= i < |s| ==> !Special(s[i])
  {
    if s != [] {
      EscapeIdentity(s[1..]);
      var head, tail := EscapeChar(s[0]), Escape(s[1..]);
      if Special(s[0]) {
        assert |head| > 1;
        assert |Escape(s)| > |s|;
      } else {
        assert Escape(s) == [s[0]] + tail;
        if forall i :: 0 <= i < |s| ==> !Special(s[i]) {
          assert forall i :: 0 <= i < |s[1..]| ==> !Special(s[1..][i]);
          assert s == [s[0]] + s[1..];
        } else {
          var i :| 0 <= i < |s| && Special(s[i]);
          assert s[1..][i - 1] == s[i];
        }
      }
    }
  }

  /** Escaping works piece by piece: escaping a concatenation concatenates the escapes. */
  lemma {:induction false} EscapeConcat(a: string, b: string)
    ensures Escape(a + b) == Escape(a) + Escape(b)
  {
    if a != [] {
      assert (a + b)[0] == a[0];
      assert (a + b)[1..] == a[1..] + b;
      EscapeConcat(a[1..], b);
    } else {
      assert a + b == b;
    }
  }

  /** Text with none of the three special characters escapes to itself. */
  lemma NoSpecialsUnchanged(s: string)
    requires forall i :: 0 <= i < |s| ==> !Special(s[i])
    ensures Escape(s) == s
  {
    EscapeIdentity(s);
  }

  /** Only the special characters change: text around one character passes through. */
  lemma EscapeAround(front: string, c: char, back: string)
    requires forall i :: 0 <= i < |front| ==> !Special(front[i])
    requires forall i :: 0 <= i < |back| ==> !Special(back[i])
    ensures Escape(front + [c] + back) == front + EscapeChar(c) + back
  {
    calc {
      Escape(front + [c] + back);
      { EscapeConcat(front + [c], back); }
      Escape(front + [c]) + Escape(back);
      { EscapeConcat(front, [c]); }
      Escape(front) + Escape([c]) + Escape(back);
      { assert [c][1..] == []; }
      Escape(front) + (EscapeChar(c) + Escape([])) + Escape(back);
      { NoSpecialsUnchanged(front); NoSpecialsUnchanged(back); }
      front + (EscapeChar(c) + []) + back;
      { assert EscapeChar(c) + [] == EscapeChar(c); }
      front + EscapeChar(c) + back;
    }
  }
}
