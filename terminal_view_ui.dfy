/** The terminal view component (packages/ui/src/terminal/terminal_view.rs):
    the HTML escaping of output lines and the input field's send guard.
    Rendering and auto-scrolling are left out. */
module TerminalViewUi {
  import opened RustString

  // ---------------------------------------------------------------------------
  // escape_html

  /** `escape_html`: five `replace` passes, `&` first. */
  function EscapeHtml(text: string): string
  {
    Replace(Replace(Replace(Replace(Replace(text, '&', "&amp;"), '<', "&lt;"), '>', "&gt;"), '"', "&quot;"), '\'', "&#x27;")
  }

  /** The five characters HTML gives a meaning to, and their entities. */
  predicate IsSpecial(c: char)
  {
    c == '&' || c == '<' || c == '>' || c == '"' || c == '\''
  }

  function Entity(c: char): (e: string)
    ensures |e| >= 1
  {
    if c == '&' then "&amp;"
    else if c == '<' then "&lt;"
    else if c == '>' then "&gt;"
    else if c == '"' then "&quot;"
    else if c == '\'' then "&#x27;"
    else [c]
  }

  /** The reference escaping: each character replaced by its entity, once. */
  function EscapeEach(s: string): string
  {
    if |s| == 0 then "" else Entity(s[0]) + EscapeEach(s[1..])
  }

  /** Each pass works character by character, so the chain distributes over
      concatenation. */
  lemma EscapeHtmlAppend(a: string, b: string)
    ensures EscapeHtml(a + b) == EscapeHtml(a) + EscapeHtml(b)
  {
    var r1a, r1b := Replace(a, '&', "&amp;"), Replace(b, '&', "&amp;");
    ReplaceAppend(a, b, '&', "&amp;");
    var r2a, r2b := Replace(r1a, '<', "&lt;"), Replace(r1b, '<', "&lt;");
    ReplaceAppend(r1a, r1b, '<', "&lt;");
    var r3a, r3b := Replace(r2a, '>', "&gt;"), Replace(r2b, '>', "&gt;");
    ReplaceAppend(r2a, r2b, '>', "&gt;");
    var r4a, r4b := Replace(r3a, '"', "&quot;"), Replace(r3b, '"', "&quot;");
    ReplaceAppend(r3a, r3b, '"', "&quot;");
    ReplaceAppend(r4a, r4b, '\'', "&#x27;");
  }

  /** On one character the chain yields exactly that character's entity: the
      `&` of an entity made by a later pass is not escaped again, because `&`
      is replaced first. */
  lemma EscapeHtmlChar(c: char)
    ensures EscapeHtml([c]) == Entity(c)
  {
    ReplaceChar(c, '&', "&amp;");
    if c == '&' {
      PassesFromLessKeep("&amp;");
    } else {
      ReplaceChar(c, '<', "&lt;");
      if c == '<' {
        PassesFromGreaterKeep("&lt;");
      } else {
        ReplaceChar(c, '>', "&gt;");
        if c == '>' {
          PassesFromQuoteKeep("&gt;");
        } else {
          EscapeAfterGreater(c);
        }
      }
    }
  }

  lemma EscapeAfterGreater(c: char)
    requires c != '&' && c != '<' && c != '>'
    ensures Replace(Replace([c], '"', "&quot;"), '\'', "&#x27;") == Entity(c)
  {
    ReplaceChar(c, '"', "&quot;");
    if c == '"' {
      ReplaceAbsent("&quot;", '\'', "&#x27;");
    } else {
      ReplaceChar(c, '\'', "&#x27;");
    }
  }

  /** The passes after the first leave alone text without their characters;
      likewise from the third and from the fourth pass on. */
  lemma PassesFromLessKeep(s: string)
    requires '<' !in s && '>' !in s && '"' !in s && '\'' !in s
    ensures Replace(Replace(Replace(Replace(s, '<', "&lt;"), '>', "&gt;"), '"', "&quot;"), '\'', "&#x27;") == s
  {
    ReplaceAbsent(s, '<', "&lt;");
    PassesFromGreaterKeep(s);
  }

  lemma PassesFromGreaterKeep(s: string)
    requires '>' !in s && '"' !in s && '\'' !in s
    ensures Replace(Replace(Replace(s, '>', "&gt;"), '"', "&quot;"), '\'', "&#x27;") == s
  {
    ReplaceAbsent(s, '>', "&gt;");
    PassesFromQuoteKeep(s);
  }

  lemma PassesFromQuoteKeep(s: string)
    requires '"' !in s && '\'' !in s
    ensures Replace(Replace(s, '"', "&quot;"), '\'', "&#x27;") == s
  {
    ReplaceAbsent(s, '"', "&quot;");
    ReplaceAbsent(s, '\'', "&#x27;");
  }

  /** The replace chain is the reference escaping. */
  lemma {:induction false} EscapeHtmlIsEscapeEach(s: string)
    ensures EscapeHtml(s) == EscapeEach(s)
  {
    if |s| == 0 {
      assert EscapeHtml(s) == "";
    } else {
      assert s == [s[0]] + s[1..];
      EscapeHtmlAppend([s[0]], s[1..]);
      EscapeHtmlChar(s[0]);
      EscapeHtmlIsEscapeEach(s[1..]);
    }
  }

  lemma {:induction false} EscapeEachHasNoMarkup(s: string)
    ensures forall i :: 0 <= i < |EscapeEach(s)| ==> !IsSpecial(EscapeEach(s)[i]) || EscapeEach(s)[i] == '&'
  {
    if |s| > 0 {
      EscapeEachHasNoMarkup(s[1..]);
      var e := Entity(s[0]);
      var t := EscapeEach(s);
      forall i | 0 <= i < |t| ensures !IsSpecial(t[i]) || t[i] == '&' {
        if i >= |e| {
          assert t[i] == EscapeEach(s[1..])[i - |e|];
        }
      }
    }
  }

  /** Escaped text holds no `<`, `>`, `"` or `'`: every one became an entity. */
  lemma EscapedHasNoMarkup(s: string)
    ensures forall i :: 0 <= i < |EscapeHtml(s)| ==>
              EscapeHtml(s)[i] != '<' && EscapeHtml(s)[i] != '>' && EscapeHtml(s)[i] != '"' && EscapeHtml(s)[i] != '\''
  {
    EscapeHtmlIsEscapeEach(s);
    EscapeEachHasNoMarkup(s);
  }

  lemma {:induction false} EscapeEachPlain(s: string)
    requires forall i :: 0 <= i < |s| ==> !IsSpecial(s[i])
    ensures EscapeEach(s) == s
  {
    if |s| > 0 {
      assert forall i :: 0 <= i < |s| - 1 ==> s[1..][i] == s[i + 1];
      EscapeEachPlain(s[1..]);
    }
  }

  /** Text without any of the five special characters is left as it is. */
  lemma EscapePlainText(s: string)
    requires forall i :: 0 <= i < |s| ==> !IsSpecial(s[i])
    ensures EscapeHtml(s) == s
  {
    EscapeHtmlIsEscapeEach(s);
    EscapeEachPlain(s);
  }

  lemma {:induction false} EscapeEachLonger(s: string)
    ensures |EscapeEach(s)| >= |s|
  {
    if |s| > 0 {
      EscapeEachLonger(s[1..]);
    }
  }

  /** Escaping never shortens the text. */
  lemma EscapeNeverShortens(s: string)
    ensures |EscapeHtml(s)| >= |s|
  {
    EscapeHtmlIsEscapeEach(s);
    EscapeEachLonger(s);
  }

  /** Escaping is not idempotent: escaping the entity of `<` again escapes
      its `&`. */
  lemma EscapeTwiceDiffers(c: char)
    requires c == '<'
    ensures EscapeHtml(EscapeHtml([c])) == "&amp;" + EscapeHtml([c])[1..]
  {
    EscapeHtmlChar(c);
    var e := EscapeHtml([c]);
    EscapeHtmlIsEscapeEach(e);
    EscapeEachPlain(e[1..]);
  }

  lemma {:induction false} EscapeEachGrowsOnSpecial(s: string)
    requires exists i :: 0 <= i < |s| && IsSpecial(s[i])
    ensures |EscapeEach(s)| > |s|
    ensures '&' in EscapeEach(s)
  {
    var e := Entity(s[0]);
    assert EscapeEach(s) == e + EscapeEach(s[1..]);
    if IsSpecial(s[0]) {
      assert |e| >= 4 && e[0] == '&';
      EscapeEachLonger(s[1..]);
    } else {
      var i :| 0 <= i < |s| && IsSpecial(s[i]);
      assert s[1..][i - 1] == s[i];
      EscapeEachGrowsOnSpecial(s[1..]);
    }
  }

  /** Escaping is idempotent on exactly the texts it leaves alone: once the
      text holds a special character, its escape holds an `&`, which a second
      pass escapes again. */
  lemma EscapeIdempotentIffPlain(s: string)
    ensures EscapeHtml(EscapeHtml(s)) == EscapeHtml(s) <==> forall i :: 0 <= i < |s| ==> !IsSpecial(s[i])
  {
    if forall i :: 0 <= i < |s| ==> !IsSpecial(s[i]) {
      EscapePlainText(s);
    } else {
      var t := EscapeHtml(s);
      EscapeHtmlIsEscapeEach(s);
      EscapeEachGrowsOnSpecial(s);
      var k :| 0 <= k < |t| && t[k] == '&';
      assert IsSpecial(t[k]);
      EscapeHtmlIsEscapeEach(t);
      EscapeEachGrowsOnSpecial(t);
    }
  }

  // ---------------------------------------------------------------------------
  // The input field

  /** The key of a `keydown` event. */
  datatype Key = Enter | OtherKey(name: string)

  class TerminalView {
    /** The `input_value` signal. */
    var inputValue: string
    /** The inputs passed to `on_send_input`, in order. */
    var sent: seq<string>

    /** Nothing empty is ever sent. */
    ghost predicate Valid()
      reads this
    {
      forall i :: 0 <= i < |sent| ==> sent[i] != ""
    }

    constructor ()
      ensures inputValue == "" && sent == [] && Valid()
    {
      inputValue := "";
      sent := [];
    }

    /** `oninput`: the field follows what is typed. */
    method OnInput(value: string)
      modifies this`inputValue
      ensures inputValue == value
    {
      inputValue := value;
    }

    /** `handle_send_click` and `handle_send_keydown`: with an empty field
        nothing happens; otherwise the input is handed to `on_send_input` and
        the field is cleared. */
    method Send()
      requires Valid()
      modifies this
      ensures Valid()
      ensures old(inputValue) == "" ==> inputValue == "" && sent == old(sent)
      ensures old(inputValue) != "" ==> sent == old(sent) + [old(inputValue)] && inputValue == ""
    {
      var input := inputValue;
      if input != "" {
        sent := sent + [input];
        inputValue := "";
      }
    }

    /** `onkeydown`: only Enter sends. */
    method OnKeyDown(key: Key)
      requires Valid()
      modifies this
      ensures Valid()
      ensures key.OtherKey? ==> inputValue == old(inputValue) && sent == old(sent)
      ensures key == Enter && old(inputValue) == "" ==> inputValue == "" && sent == old(sent)
      ensures key == Enter && old(inputValue) != "" ==> sent == old(sent) + [old(inputValue)] && inputValue == ""
    {
      if key == Enter {
        Send();
      }
    }
  }
}
