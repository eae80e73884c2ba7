/** HTML escaping of user text (`escapeHtml`) and the newline-to-`<br>`
    rewrite applied to the contact message, with decoders that invert them. */
module Html {

  /** The five characters `escapeHtml` rewrites. */
  predicate IsSpecial(c: char)
  {
    c == '&' || c == '<' || c == '>' || c == '"' || c == '\''
  }

  /** The character reference each special character becomes; every other
      character is kept as it is. */
  function EscapeChar(c: char): string
  {
    match c
    case '&' => "&amp;"
    case '<' => "&lt;"
    case '>' => "&gt;"
    case '"' => "&quot;"
    case '\'' => "&#039;"
    case _ => [c]
  }

  /** `text.replace(/[&<>"']/g, m => map[m])`: one left-to-right pass that
      rewrites each character on its own, so nothing is escaped twice. */
  function EscapeHtml(s: string): string
  {
    if |s| == 0 then "" else EscapeChar(s[0]) + EscapeHtml(s[1..])
  }

  /** Position `i` of `s` starts one of the five character references. */
  predicate BeginsReference(s: string, i: nat)
    requires i < |s|
  {
    var rest := s[i..];
    "&amp;" <= rest || "&lt;" <= rest || "&gt;" <= rest || "&quot;" <= rest || "&#039;" <= rest
  }

  /** Text that is inert when placed in HTML: no `<`, `>`, `"` or `'`, and
      every `&` starts a character reference. */
  predicate Escaped(s: string)
  {
    forall i :: 0 <= i < |s| ==>
      && s[i] != '<' && s[i] != '>' && s[i] != '"' && s[i] != '\''
      && (s[i] == '&' ==> BeginsReference(s, i))
  }

  lemma {:induction false} EscapeHtmlAppend(a: string, b: string)
    ensures EscapeHtml(a + b) == EscapeHtml(a) + EscapeHtml(b)
  {
    if |a| == 0 {
      assert a + b == b;
    } else {
      assert (a + b)[0] == a[0];
      assert (a + b)[1..] == a[1..] + b;
      EscapeHtmlAppend(a[1..], b);
    }
  }

  lemma {:induction false} EscapedAppend(a: string, b: string)
    requires Escaped(a) && Escaped(b)
    ensures Escaped(a + b)
  {
    var s := a + b;
    forall i | 0 <= i < |s|
      ensures s[i] != '<' && s[i] != '>' && s[i] != '"' && s[i] != '\''
      ensures s[i] == '&' ==> BeginsReference(s, i)
    {
      if i < |a| {
        assert s[i] == a[i];
        assert s[i..] == a[i..] + b;
        if s[i] == '&' {
          assert BeginsReference(a, i);
        }
      } else {
        assert s[i] == b[i - |a|];
        assert s[i..] == b[i - |a|..];
        if s[i] == '&' {
          assert BeginsReference(b, i - |a|);
        }
      }
    }
  }

  lemma EscapeCharEscaped(c: char)
    ensures Escaped(EscapeChar(c))
  {
    var e := EscapeChar(c);
    if c == '&' {
      assert e[0..] == "&amp;";
    } else if c == '<' {
      assert e[0..] == "&lt;";
    } else if c == '>' {
      assert e[0..] == "&gt;";
    } else if c == '"' {
      assert e[0..] == "&quot;";
    } else if c == '\'' {
      assert e[0..] == "&#039;";
    }
  }

  /** The output of `escapeHtml` carries no `<`, `>`, `"` or `'`, and each
      of its `&` starts one of the five references. */
  lemma {:induction false} EscapeHtmlIsEscaped(s: string)
    ensures Escaped(EscapeHtml(s))
  {
    if |s| > 0 {
      EscapeCharEscaped(s[0]);
      EscapeHtmlIsEscaped(s[1..]);
      EscapedAppend(EscapeChar(s[0]), EscapeHtml(s[1..]));
    }
  }

  lemma {:induction false} EscapeHtmlGrows(s: string)
    ensures |EscapeHtml(s)| >= |s|
    ensures (exists k :: 0 <= k < |s| && IsSpecial(s[k])) ==> |EscapeHtml(s)| > |s|
  {
    if |s| > 0 {
      EscapeHtmlGrows(s[1..]);
      if exists k :: 0 <= k < |s| && IsSpecial(s[k]) {
        var k :| 0 <= k < |s| && IsSpecial(s[k]);
        if k > 0 {
          assert s[1..][k - 1] == s[k];
        }
      }
    }
  }

  /** `escapeHtml` leaves a string unchanged exactly when it holds none of
      the five special characters. */
  lemma {:induction false} EscapeHtmlIdentity(s: string)
    ensures EscapeHtml(s) == s <==> forall k :: 0 <= k < |s| ==> !IsSpecial(s[k])
  {
    if forall k :: 0 <= k < |s| ==> !IsSpecial(s[k]) {
      NoSpecialFixed(s);
    } else {
      EscapeHtmlGrows(s);
    }
  }

  lemma {:induction false} NoSpecialFixed(s: string)
    requires forall k :: 0 <= k < |s| ==> !IsSpecial(s[k])
    ensures EscapeHtml(s) == s
  {
    if |s| > 0 {
      assert !IsSpecial(s[0]);
      NoSpecialFixed(s[1..]);
      assert s == [s[0]] + s[1..];
    }
  }

  /** Reads the five character references back into the characters they
      stand for; everything else is copied. */
  function UnescapeHtml(s: string): string
    decreases |s|
  {
    if |s| == 0 then ""
    else if "&amp;" <= s then "&" + UnescapeHtml(s[5..])
    else if "&lt;" <= s then "<" + UnescapeHtml(s[4..])
    else if "&gt;" <= s then ">" + UnescapeHtml(s[4..])
    else if "&quot;" <= s then "\"" + UnescapeHtml(s[6..])
    else if "&#039;" <= s then "'" + UnescapeHtml(s[6..])
    else [s[0]] + UnescapeHtml(s[1..])
  }

  lemma UnescapeEscapeChar(c: char, rest: string)
    ensures UnescapeHtml(EscapeChar(c) + rest) == [c] + UnescapeHtml(rest)
  {
    var t := EscapeChar(c) + rest;
    if c == '&' {
      assert "&amp;" <= t && t[5..] == rest;
    } else if c == '<' {
      assert t[1] == 'l';
      assert !("&amp;" <= t);
      assert "&lt;" <= t && t[4..] == rest;
    } else if c == '>' {
      assert t[1] == 'g';
      assert !("&amp;" <= t) && !("&lt;" <= t);
      assert "&gt;" <= t && t[4..] == rest;
    } else if c == '"' {
      assert t[1] == 'q';
      assert !("&amp;" <= t) && !("&lt;" <= t) && !("&gt;" <= t);
      assert "&quot;" <= t && t[6..] == rest;
    } else if c == '\'' {
      assert t[1] == '#';
      assert !("&amp;" <= t) && !("&lt;" <= t) && !("&gt;" <= t) && !("&quot;" <= t);
      assert "&#039;" <= t && t[6..] == rest;
    } else {
      assert t[0] == c && t[1..] == rest;
      assert !("&amp;" <= t) && !("&lt;" <= t) && !("&gt;" <= t) && !("&quot;" <= t) && !("&#039;" <= t);
    }
  }

  /** Decoding the five references undoes `escapeHtml`, so escaping loses
      nothing: two different texts never escape to the same HTML. */
  lemma {:induction false} UnescapeEscapeHtml(s: string)
    ensures UnescapeHtml(EscapeHtml(s)) == s
  {
    if |s| > 0 {
      UnescapeEscapeChar(s[0], EscapeHtml(s[1..]));
      UnescapeEscapeHtml(s[1..]);
      assert s == [s[0]] + s[1..];
    }
  }

  /** `s.replace(/\n/g, "<br>")`: every line feed becomes a `<br>` tag; a
      carriage return is kept. */
  function ReplaceNewlines(s: string): string
  {
    if |s| == 0 then ""
    else (if s[0] == '\n' then "<br>" else [s[0]]) + ReplaceNewlines(s[1..])
  }

  /** `safeMessage`: the message escaped, then its line feeds turned into
      `<br>` tags. */
  function SafeMessage(message: string): string
  {
    ReplaceNewlines(EscapeHtml(message))
  }

  /** What one message character contributes to `safeMessage`. */
  function SafeChar(c: char): string
  {
    if c == '\n' then "<br>" else EscapeChar(c)
  }

  /** Reads each `<br>` back as a line feed; everything else is copied. */
  function RestoreNewlines(s: string): string
    decreases |s|
  {
    if |s| == 0 then ""
    else if "<br>" <= s then "\n" + RestoreNewlines(s[4..])
    else [s[0]] + RestoreNewlines(s[1..])
  }

  /** Position `i` of `s` is inert in HTML apart from `<br>` tags: not a
      quote, a `<` only if it opens a `<br>`, a `>` only if it closes one,
      and an `&` only if it starts a character reference. */
  predicate InertAt(s: string, i: nat)
    requires i < |s|
  {
    && s[i] != '"' && s[i] != '\''
    && (s[i] == '<' ==> "<br>" <= s[i..])
    && (s[i] == '>' ==> 3 <= i && s[i - 3..i + 1] == "<br>")
    && (s[i] == '&' ==> BeginsReference(s, i))
  }

  /** Text whose only markup is `<br>` tags. */
  predicate InertWithBreaks(s: string)
  {
    forall i :: 0 <= i < |s| ==> InertAt(s, i)
  }

  lemma {:induction false} ReplaceNewlinesAppend(a: string, b: string)
    ensures ReplaceNewlines(a + b) == ReplaceNewlines(a) + ReplaceNewlines(b)
  {
    if |a| == 0 {
      assert a + b == b;
    } else {
      assert (a + b)[0] == a[0];
      assert (a + b)[1..] == a[1..] + b;
      ReplaceNewlinesAppend(a[1..], b);
    }
  }

  lemma {:induction false} ReplaceNewlinesNoNewline(s: string)
    requires Lacks(s, '\n')
    ensures ReplaceNewlines(s) == s
  {
    if |s| > 0 {
      ReplaceNewlinesNoNewline(s[1..]);
      assert s == [s[0]] + s[1..];
    }
  }

  /** `s` holds no character `c`. */
  predicate Lacks(s: string, c: char)
  {
    forall k :: 0 <= k < |s| ==> s[k] != c
  }

  lemma LacksAppend(a: string, b: string, c: char)
    requires Lacks(a, c) && Lacks(b, c)
    ensures Lacks(a + b, c)
  {
    forall k | 0 <= k < |a + b| ensures (a + b)[k] != c {
      if k < |a| {
        assert (a + b)[k] == a[k];
      } else {
        assert (a + b)[k] == b[k - |a|];
      }
    }
  }

  /** A character's escape holds no `<`, and no line feed unless the
      character is one. */
  lemma EscapeCharLacks(c: char)
    ensures Lacks(EscapeChar(c), '<')
    ensures c != '\n' ==> Lacks(EscapeChar(c), '\n')
  {
    var e := EscapeChar(c);
    if c == '&' {
      assert e == "&amp;";
    } else if c == '<' {
      assert e == "&lt;";
    } else if c == '>' {
      assert e == "&gt;";
    } else if c == '"' {
      assert e == "&quot;";
    } else if c == '\'' {
      assert e == "&#039;";
    } else {
      assert e == [c];
    }
  }

  lemma {:induction false} SafeMessageCons(m: string)
    requires |m| > 0
    ensures SafeMessage(m) == SafeChar(m[0]) + SafeMessage(m[1..])
  {
    var e := EscapeChar(m[0]);
    assert EscapeHtml(m) == e + EscapeHtml(m[1..]);
    ReplaceNewlinesAppend(e, EscapeHtml(m[1..]));
    if m[0] == '\n' {
      assert e == "\n";
      assert ReplaceNewlines(e) == "<br>" + ReplaceNewlines(e[1..]);
      assert e[1..] == "";
    } else {
      EscapeCharLacks(m[0]);
      ReplaceNewlinesNoNewline(e);
    }
  }

  /** `safeMessage` maps the message character by character. */
  lemma {:induction false} SafeMessageAppend(a: string, b: string)
    ensures SafeMessage(a + b) == SafeMessage(a) + SafeMessage(b)
  {
    EscapeHtmlAppend(a, b);
    ReplaceNewlinesAppend(EscapeHtml(a), EscapeHtml(b));
  }

  /** `safeMessage` holds no line feed. */
  lemma {:induction false} SafeMessageHasNoNewline(m: string)
    ensures Lacks(SafeMessage(m), '\n')
  {
    if |m| > 0 {
      SafeMessageCons(m);
      SafeMessageHasNoNewline(m[1..]);
      if m[0] == '\n' {
        assert SafeChar(m[0]) == "<br>";
      } else {
        EscapeCharLacks(m[0]);
      }
      LacksAppend(SafeChar(m[0]), SafeMessage(m[1..]), '\n');
    }
  }

  lemma InertAtAppendLeft(a: string, b: string, i: nat)
    requires i < |a| && InertAt(a, i)
    ensures InertAt(a + b, i)
  {
    var s := a + b;
    assert s[i] == a[i];
    assert s[i..] == a[i..] + b;
    if s[i] == '>' {
      assert s[i - 3..i + 1] == a[i - 3..i + 1];
    }
    if s[i] == '&' {
      assert BeginsReference(a, i);
    }
  }

  lemma InertAtAppendRight(a: string, b: string, j: nat)
    requires j < |b| && InertAt(b, j)
    ensures InertAt(a + b, |a| + j)
  {
    var s := a + b;
    var i := |a| + j;
    assert s[i] == b[j];
    assert s[i..] == b[j..];
    if s[i] == '>' {
      assert s[i - 3..i + 1] == b[j - 3..j + 1];
    }
    if s[i] == '&' {
      assert BeginsReference(b, j);
    }
  }

  lemma {:induction false} InertWithBreaksAppend(a: string, b: string)
    requires InertWithBreaks(a) && InertWithBreaks(b)
    ensures InertWithBreaks(a + b)
  {
    forall i | 0 <= i < |a + b| ensures InertAt(a + b, i) {
      if i < |a| {
        InertAtAppendLeft(a, b, i);
      } else {
        InertAtAppendRight(a, b, i - |a|);
      }
    }
  }

  lemma EscapedIsInertWithBreaks(s: string)
    requires Escaped(s)
    ensures InertWithBreaks(s)
  {
  }

  lemma SafeCharInert(c: char)
    ensures InertWithBreaks(SafeChar(c))
  {
    if c == '\n' {
      var t := SafeChar(c);
      assert t[0..] == "<br>";
      assert t[0..4] == "<br>";
    } else {
      EscapeCharEscaped(c);
    }
  }

  /** Apart from the `<br>` tags the rewrite inserts, `safeMessage` carries
      no markup: each `<` in it opens a `<br>` and each `>` closes one. */
  lemma {:induction false} SafeMessageIsInert(m: string)
    ensures InertWithBreaks(SafeMessage(m))
  {
    if |m| > 0 {
      SafeMessageCons(m);
      SafeCharInert(m[0]);
      SafeMessageIsInert(m[1..]);
      InertWithBreaksAppend(SafeChar(m[0]), SafeMessage(m[1..]));
    }
  }

  lemma {:induction false} RestoreNewlinesNoTag(a: string, b: string)
    requires Lacks(a, '<')
    ensures RestoreNewlines(a + b) == a + RestoreNewlines(b)
  {
    if |a| == 0 {
      assert a + b == b;
    } else {
      var s := a + b;
      assert s[0] == a[0] != '<';
      assert !("<br>" <= s);
      assert s[1..] == a[1..] + b;
      RestoreNewlinesNoTag(a[1..], b);
    }
  }

  /** Turning `<br>` back into line feeds recovers the escaped message: the
      only `<br>` in `safeMessage` are those the rewrite inserted. */
  lemma {:induction false} RestoreSafeMessage(m: string)
    ensures RestoreNewlines(SafeMessage(m)) == EscapeHtml(m)
  {
    if |m| > 0 {
      SafeMessageCons(m);
      RestoreSafeMessage(m[1..]);
      var rest := SafeMessage(m[1..]);
      if m[0] == '\n' {
        var s := "<br>" + rest;
        assert "<br>" <= s && s[4..] == rest;
      } else {
        EscapeCharLacks(m[0]);
        RestoreNewlinesNoTag(EscapeChar(m[0]), rest);
      }
    }
  }

  /** `safeMessage` loses nothing: decoding it gives back the message, so
      the confirmation email echoes the sender's text exactly. */
  lemma SafeMessageRoundTrip(m: string)
    ensures UnescapeHtml(RestoreNewlines(SafeMessage(m))) == m
  {
    RestoreSafeMessage(m);
    UnescapeEscapeHtml(m);
  }
}
