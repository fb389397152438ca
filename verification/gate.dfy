/** The wake-phrase gate applied to each transcript: strip it, lower-case it,
    and dispatch only when it contains a chat trigger; a glasses trigger inside
    a chat match routes to the glasses toggle instead of a model query. */
module Gate {

  /** The chat wake phrases; several carry spaces or punctuation. */
  const ChatTriggers: seq<string> := ["chat", "chet", " hat ", " hat.", " hat,", " het", " het.", "-hat"]

  /** The phrases that, inside a chat match, ask for the glasses toggle. */
  const GlassesTriggers: seq<string> := ["glasses", "classes"]

  /** What the transcription worker does with one transcript. */
  datatype Action = Ignore | ToggleGlasses | Query(text: string)

  /** The characters Python's `str.strip()` removes: the whitespace characters. */
  predicate IsSpace(ch: char)
  {
    || ch == ' ' || ('\t' <= ch <= '\r') || ('\U{1c}' <= ch <= '\U{1f}')
    || ch == '\U{85}' || ch == '\U{a0}' || ch == '\U{1680}' || ('\U{2000}' <= ch <= '\U{200a}')
    || ch == '\U{2028}' || ch == '\U{2029}' || ch == '\U{202f}' || ch == '\U{205f}' || ch == '\U{3000}'
  }

  /** Drops leading whitespace: the result is a suffix of the input, everything
      dropped is whitespace, and the result does not start with whitespace. */
  function TrimLeft(s: string): (r: string)
    ensures |r| <= |s| && r == s[|s| - |r|..]
    ensures forall i :: 0 <= i < |s| - |r| ==> IsSpace(s[i])
    ensures r != [] ==> !IsSpace(r[0])
    decreases |s|
  {
    if s != [] && IsSpace(s[0]) then TrimLeft(s[1..]) else s
  }

  /** Drops trailing whitespace: the result is a prefix of the input, everything
      dropped is whitespace, and the result does not end with whitespace. */
  function TrimRight(s: string): (r: string)
    ensures |r| <= |s| && r == s[..|r|]
    ensures forall i :: |r| <= i < |s| ==> IsSpace(s[i])
    ensures r != [] ==> !IsSpace(r[|r| - 1])
    decreases |s|
  {
    if s != [] && IsSpace(s[|s| - 1]) then TrimRight(s[..|s| - 1]) else s
  }

  /** `str.strip()`: the text between the first and the last non-space
      character; empty exactly when the input is all whitespace. */
  function Strip(s: string): (r: string)
    ensures r != [] ==> !IsSpace(r[0]) && !IsSpace(r[|r| - 1])
    ensures r == [] <==> forall i :: 0 <= i < |s| ==> IsSpace(s[i])
  {
    var left := TrimLeft(s);
    var r := TrimRight(left);
    r
  }

  /** Lower-casing of one character: ASCII capitals only. */
  function LowerChar(ch: char): char
  {
    if 'A' <= ch <= 'Z' then (ch as int - 'A' as int + 'a' as int) as char else ch
  }

  function Lower(s: string): string
  {
    seq(|s|, i requires 0 <= i < |s| => LowerChar(s[i]))
  }

  /** Lower-casing neither creates nor removes whitespace. */
  lemma LowerCharKeepsSpace(ch: char)
    ensures IsSpace(LowerChar(ch)) == IsSpace(ch)
  {
  }

  /** Lower-casing commutes with dropping leading whitespace. */
  lemma {:induction false} TrimLeftLower(s: string)
    ensures TrimLeft(Lower(s)) == Lower(TrimLeft(s))
    decreases |s|
  {
    if s != [] {
      LowerCharKeepsSpace(s[0]);
      if IsSpace(s[0]) {
        assert Lower(s)[1..] == Lower(s[1..]);
        TrimLeftLower(s[1..]);
      }
    }
  }

  /** Lower-casing commutes with dropping trailing whitespace. */
  lemma {:induction false} TrimRightLower(s: string)
    ensures TrimRight(Lower(s)) == Lower(TrimRight(s))
    decreases |s|
  {
    if s != [] {
      LowerCharKeepsSpace(s[|s| - 1]);
      if IsSpace(s[|s| - 1]) {
        assert Lower(s)[..|s| - 1] == Lower(s[..|s| - 1]);
        TrimRightLower(s[..|s| - 1]);
      }
    }
  }

  /** Stripping and lower-casing can be done in either order. */
  lemma StripLower(s: string)
    ensures Strip(Lower(s)) == Lower(Strip(s))
  {
    TrimLeftLower(s);
    TrimRightLower(TrimLeft(s));
  }

  /** `pat` occurs in `text` starting at index `i`. */
  predicate OccursAt(text: string, pat: string, i: int)
  {
    0 <= i && i + |pat| <= |text| && text[i..i + |pat|] == pat
  }

  /** Python's `pat in text`: a scan of the start positions, front to back. */
  function Contains(text: string, pat: string): bool
    decreases |text|
  {
    if |pat| <= |text| && text[..|pat|] == pat then true
    else if text == [] then false
    else Contains(text[1..], pat)
  }

  /** The scan finds `pat` exactly when it occurs at some position. */
  lemma {:induction false} ContainsIff(text: string, pat: string)
    ensures Contains(text, pat) <==> exists i :: OccursAt(text, pat, i)
    decreases |text|
  {
    if |pat| <= |text| && text[..|pat|] == pat {
      assert OccursAt(text, pat, 0);
    } else if text == [] {
    } else {
      ContainsIff(text[1..], pat);
      if Contains(text[1..], pat) {
        var i :| OccursAt(text[1..], pat, i);
        assert text[1..][i..i + |pat|] == text[i + 1..i + 1 + |pat|];
        assert OccursAt(text, pat, i + 1);
      } else if exists i :: OccursAt(text, pat, i) {
        var i :| OccursAt(text, pat, i);
        assert i != 0;
        assert text[1..][i - 1..i - 1 + |pat|] == text[i..i + |pat|];
        assert OccursAt(text[1..], pat, i - 1);
        assert false;
      }
    }
  }

  /** Python's `any(trigger in text for trigger in triggers)`. */
  predicate AnyTrigger(text: string, triggers: seq<string>)
  {
    exists t :: t in triggers && Contains(text, t)
  }

  /** The decision the transcription worker takes on one transcript. */
  function Dispatch(transcript: string, chat: seq<string>, glasses: seq<string>): Action
  {
    var text := Strip(transcript);
    if text == [] then Ignore
    else if !AnyTrigger(Lower(text), chat) then Ignore
    else if AnyTrigger(Lower(text), glasses) then ToggleGlasses
    else Query(text)
  }

  /** Some trigger of the list occurs at some position of `text`. */
  ghost predicate SomeTriggerOccurs(text: string, triggers: seq<string>)
  {
    exists t, i :: t in triggers && OccursAt(text, t, i)
  }

  lemma AnyTriggerIff(text: string, triggers: seq<string>)
    ensures AnyTrigger(text, triggers) <==> SomeTriggerOccurs(text, triggers)
  {
    forall t | t in triggers {
      ContainsIff(text, t);
    }
  }

  /** The gate, both directions: nothing is dispatched unless the stripped
      transcript is non-empty and its lower-case form contains a chat trigger
      somewhere (substring, not whole word); within a chat match a glasses
      trigger routes to the toggle, otherwise the query receives the stripped
      transcript in its original case. */
  lemma GateRoutes(transcript: string, chat: seq<string>, glasses: seq<string>)
    ensures var text := Strip(transcript);
      var r := Dispatch(transcript, chat, glasses);
      && (r != Ignore <==> text != [] && SomeTriggerOccurs(Lower(text), chat))
      && (r == ToggleGlasses <==>
            text != [] && SomeTriggerOccurs(Lower(text), chat) && SomeTriggerOccurs(Lower(text), glasses))
      && (r.Query? <==>
            text != [] && SomeTriggerOccurs(Lower(text), chat) && !SomeTriggerOccurs(Lower(text), glasses))
      && (r.Query? ==> r.text == text)
  {
    var text := Strip(transcript);
    AnyTriggerIff(Lower(text), chat);
    AnyTriggerIff(Lower(text), glasses);
  }

  /** The gate ignores case: two transcripts equal up to ASCII case take the
      same route, and their queries carry texts equal up to case. */
  lemma SameRouteUpToCase(t1: string, t2: string, chat: seq<string>, glasses: seq<string>)
    requires Lower(t1) == Lower(t2)
    ensures var r1, r2 := Dispatch(t1, chat, glasses), Dispatch(t2, chat, glasses);
      && (r1 == Ignore <==> r2 == Ignore)
      && (r1 == ToggleGlasses <==> r2 == ToggleGlasses)
      && (r1.Query? <==> r2.Query?)
      && (r1.Query? && r2.Query? ==> Lower(r1.text) == Lower(r2.text))
  {
    StripLower(t1);
    StripLower(t2);
    var x1, x2 := Strip(t1), Strip(t2);
    assert Lower(x1) == Lower(x2);
    assert |x1| == |Lower(x1)| && |x2| == |Lower(x2)|;
  }

  /** A glasses phrase alone does nothing: without a chat trigger the glasses
      triggers are never consulted. */
  lemma GlassesAloneIgnored(transcript: string, chat: seq<string>, glasses: seq<string>)
    requires forall t, i :: t in chat ==> !OccursAt(Lower(Strip(transcript)), t, i)
    ensures Dispatch(transcript, chat, glasses) == Ignore
  {
    GateRoutes(transcript, chat, glasses);
  }

  /** Every chat trigger has an `h` as its second character. */
  lemma {:induction false} ChatTriggersNeedH(text: string)
    requires forall i :: 0 <= i < |text| ==> text[i] != 'h' && text[i] != 'H'
    ensures forall t, i :: t in ChatTriggers ==> !OccursAt(Lower(text), t, i)
  {
    forall t, i | t in ChatTriggers
      ensures !OccursAt(Lower(text), t, i)
    {
      if 0 <= i && i + |t| <= |text| {
        assert t[1] == 'h';
        assert LowerChar(text[i + 1]) != 'h';
        assert Lower(text)[i..i + |t|][1] != t[1];
      }
    }
  }

  /** A glasses phrase alone does nothing with the real trigger lists. */
  lemma GlassesPhraseAloneExample()
    ensures Dispatch("Glasses up, please.", ChatTriggers, GlassesTriggers) == Ignore
  {
    var s := "Glasses up, please.";
    assert s[0] == 'G' && s[|s| - 1] == '.';
    assert TrimLeft(s) == s;
    assert TrimRight(s) == s;
    ChatTriggersNeedH(s);
    GlassesAloneIgnored(s, ChatTriggers, GlassesTriggers);
  }

  /** Leading whitespace before a text that does not start with whitespace is
      exactly what `TrimLeft` drops. */
  lemma {:induction false} TrimLeftPadding(pad: string, u: string)
    requires forall i :: 0 <= i < |pad| ==> IsSpace(pad[i])
    requires u != [] ==> !IsSpace(u[0])
    ensures TrimLeft(pad + u) == u
    decreases |pad|
  {
    if pad == [] {
      assert pad + u == u;
    } else {
      assert (pad + u)[0] == pad[0];
      assert (pad + u)[1..] == pad[1..] + u;
      TrimLeftPadding(pad[1..], u);
    }
  }

  /** Trailing whitespace after a text that does not end with whitespace is
      exactly what `TrimRight` drops. */
  lemma {:induction false} TrimRightPadding(u: string, pad: string)
    requires forall i :: 0 <= i < |pad| ==> IsSpace(pad[i])
    requires u != [] ==> !IsSpace(u[|u| - 1])
    ensures TrimRight(u + pad) == u
    decreases |pad|
  {
    if pad == [] {
      assert u + pad == u;
    } else {
      var last := |pad| - 1;
      assert (u + pad)[|u + pad| - 1] == pad[last];
      assert (u + pad)[..|u + pad| - 1] == u + pad[..last];
      TrimRightPadding(u, pad[..last]);
    }
  }

  /** Stripping undoes padding: whitespace added around a text that neither
      starts nor ends with whitespace is removed again. */
  lemma StripPadded(pad: string, t: string, pad2: string)
    requires forall i :: 0 <= i < |pad| ==> IsSpace(pad[i])
    requires forall i :: 0 <= i < |pad2| ==> IsSpace(pad2[i])
    requires t != [] && !IsSpace(t[0]) && !IsSpace(t[|t| - 1])
    ensures Strip(pad + t + pad2) == t
  {
    assert pad + t + pad2 == pad + (t + pad2);
    TrimLeftPadding(pad, t + pad2);
    TrimRightPadding(t, pad2);
  }

  lemma LowerExample()
    ensures OccursAt(Lower("please CHAT with me"), "chat", 7)
  {
    var t := "please CHAT with me";
    var lower := Lower(t);
    assert t[7] == 'C' && t[8] == 'H' && t[9] == 'A' && t[10] == 'T';
    assert lower[7] == 'c' && lower[8] == 'h' && lower[9] == 'a' && lower[10] == 't';
  }

  /** Matching ignores case, and the query keeps the original case. */
  lemma CaseInsensitiveExample()
    ensures Dispatch(" " + "please CHAT with me" + " ", ["chat"], []) == Query("please CHAT with me")
  {
    var t := "please CHAT with me";
    assert t[0] == 'p' && t[|t| - 1] == 'e';
    StripPadded(" ", t, " ");
    LowerExample();
    ContainsIff(Lower(t), "chat");
    assert "chat" in ["chat"];
    assert AnyTrigger(Lower(t), ["chat"]);
    assert !AnyTrigger(Lower(t), []);
  }
}
