/** The browser client's text handling: `String.prototype.trim`, the HTML
    escaping applied to every rendered username and text, and the submit
    handler that turns the two input boxes into emitted events. */
module ChatClient {
  import opened Protocol

  // ---------------------------------------------------------------------------
  // trim

  /** The characters `trim` removes: ECMAScript WhiteSpace (tab, vertical tab,
      form feed, space, no-break space, byte order mark and the Unicode Zs
      category) and LineTerminator (LF, CR, line and paragraph separators). */
  predicate IsSpace(c: char) {
    c == '\t' || c == '\n' || c == '\U{B}' || c == '\U{C}' || c == '\r' || c == ' ' ||
    c == '\U{A0}' || c == '\U{1680}' || ('\U{2000}' <= c <= '\U{200A}') ||
    c == '\U{2028}' || c == '\U{2029}' || c == '\U{202F}' || c == '\U{205F}' ||
    c == '\U{3000}' || c == '\U{FEFF}'
  }

  predicate AllSpace(s: string) {
    forall k :: 0 <= k < |s| ==> IsSpace(s[k])
  }

  /** Where the leading whitespace of `s` ends: everything before it is
      whitespace and the character there, if any, is not. */
  function LeadingEnd(s: string): (i: nat)
    ensures i <= |s|
    ensures forall k :: 0 <= k < i ==> IsSpace(s[k])
    ensures i < |s| ==> !IsSpace(s[i])
  {
    if s != [] && IsSpace(s[0]) then 1 + LeadingEnd(s[1..]) else 0
  }

  /** Where the trailing whitespace of `s` starts, searching down from `hi`
      but not below `lo`: everything from there on is whitespace and the
      character just before it, if above `lo`, is not. */
  function TrailingStart(s: string, lo: nat, hi: nat): (j: nat)
    requires lo <= hi <= |s|
    requires forall k :: hi <= k < |s| ==> IsSpace(s[k])
    ensures lo <= j <= hi
    ensures forall k :: j <= k < |s| ==> IsSpace(s[k])
    ensures lo < j ==> !IsSpace(s[j - 1])
    decreases hi
  {
    if lo < hi && IsSpace(s[hi - 1]) then TrailingStart(s, lo, hi - 1) else hi
  }

  /** `s.trim()`: the slice of `s` left after removing whitespace at both
      ends. Everything dropped is whitespace; the result is empty exactly
      when `s` is all whitespace, and otherwise neither starts nor ends with
      whitespace. */
  function Trim(s: string): (r: string)
    ensures var i := LeadingEnd(s);
            && i + |r| <= |s| && r == s[i..i + |r|]
            && (forall k :: 0 <= k < i ==> IsSpace(s[k]))
            && (forall k :: i + |r| <= k < |s| ==> IsSpace(s[k]))
    ensures r == [] <==> AllSpace(s)
    ensures r != [] ==> !IsSpace(r[0]) && !IsSpace(r[|r| - 1])
  {
    var i := LeadingEnd(s);
    var j := TrailingStart(s, i, |s|);
    s[i..j]
  }

  /** Trimming twice is trimming once. */
  lemma TrimIdempotent(s: string)
    ensures Trim(Trim(s)) == Trim(s)
  {
    var r := Trim(s);
    var i := LeadingEnd(r);
    assert i == 0;
    var j := TrailingStart(r, i, |r|);
    assert j == |r|;
    assert r[i..j] == r;
  }

  // ---------------------------------------------------------------------------
  // escapeHtml

  /** `str.replace(/c/g, rep)` for a single character `c`: every occurrence of
      `c`, scanning left to right, replaced by `rep`. Every character of the
      result is either a character of `s` other than `c` or one of `rep`. */
  function ReplaceAll(s: string, c: char, rep: string): (r: string)
    ensures forall x :: x in r ==> (x in s && x != c) || x in rep
  {
    if s == [] then []
    else (if s[0] == c then rep else [s[0]]) + ReplaceAll(s[1..], c, rep)
  }

  /** `escapeHtml(str)` as written: three global replacements, `&` first.
      The result contains no `<` and no `>`, so it opens no tag. */
  function EscapeHtml(s: string): (r: string)
    ensures '<' !in r && '>' !in r
  {
    ReplaceAll(ReplaceAll(ReplaceAll(s, '&', "&amp;"), '<', "&lt;"), '>', "&gt;")
  }

  /** The entity each character stands for after escaping. */
  function EscapeChar(c: char): string {
    if c == '&' then "&amp;"
    else if c == '<' then "&lt;"
    else if c == '>' then "&gt;"
    else [c]
  }

  /** Reference definition: escape each character on its own. */
  function EscapeEach(s: string): string {
    if s == [] then [] else EscapeChar(s[0]) + EscapeEach(s[1..])
  }

  function Count(s: string, c: char): nat {
    if s == [] then 0 else (if s[0] == c then 1 else 0) + Count(s[1..], c)
  }

  lemma {:induction false} ReplaceAllAbsent(s: string, c: char, rep: string)
    requires c !in s
    ensures ReplaceAll(s, c, rep) == s
  {
    if s != [] {
      ReplaceAllAbsent(s[1..], c, rep);
    }
  }

  lemma ReplaceAllOne(x: char, c: char, rep: string)
    ensures ReplaceAll([x], c, rep) == if x == c then rep else [x]
  {
    assert [x][1..] == [];
  }

  /** The three replacements applied to one character give its entity. The
      `&` inside `&lt;` and `&gt;` appears only after the `&` pass has run,
      so it is never escaped a second time. */
  lemma EscapeHtmlOfChar(c: char)
    ensures EscapeHtml([c]) == EscapeChar(c)
  {
    ReplaceAllOne(c, '&', "&amp;");
    if c == '&' {
      ReplaceAllAbsent("&amp;", '<', "&lt;");
      ReplaceAllAbsent("&amp;", '>', "&gt;");
    } else if c == '<' {
      ReplaceAllOne(c, '<', "&lt;");
      ReplaceAllAbsent("&lt;", '>', "&gt;");
    } else {
      ReplaceAllOne(c, '<', "&lt;");
      ReplaceAllOne(c, '>', "&gt;");
    }
  }

  lemma {:induction false} ReplaceAllAppend(a: string, b: string, c: char, rep: string)
    ensures ReplaceAll(a + b, c, rep) == ReplaceAll(a, c, rep) + ReplaceAll(b, c, rep)
  {
    if a == [] {
      assert a + b == b;
    } else {
      assert (a + b)[1..] == a[1..] + b;
      ReplaceAllAppend(a[1..], b, c, rep);
    }
  }

  /** The chain of replacements is the per-character map. */
  lemma {:induction false} EscapeHtmlIsPerChar(s: string)
    ensures EscapeHtml(s) == EscapeEach(s)
  {
    if s != [] {
      var c, t := s[0], s[1..];
      assert s == [c] + t;
      ReplaceAllAppend([c], t, '&', "&amp;");
      var a1, b1 := ReplaceAll([c], '&', "&amp;"), ReplaceAll(t, '&', "&amp;");
      ReplaceAllAppend(a1, b1, '<', "&lt;");
      var a2, b2 := ReplaceAll(a1, '<', "&lt;"), ReplaceAll(b1, '<', "&lt;");
      ReplaceAllAppend(a2, b2, '>', "&gt;");
      EscapeHtmlOfChar(c);
      EscapeHtmlIsPerChar(t);
    }
  }

  lemma {:induction false} EscapeEachLength(s: string)
    ensures |EscapeEach(s)| == |s| + 4 * Count(s, '&') + 3 * Count(s, '<') + 3 * Count(s, '>')
  {
    if s != [] {
      EscapeEachLength(s[1..]);
    }
  }

  /** Each `&` grows by four characters, each `<` and `>` by three. */
  lemma EscapeHtmlLength(s: string)
    ensures |EscapeHtml(s)| == |s| + 4 * Count(s, '&') + 3 * Count(s, '<') + 3 * Count(s, '>')
  {
    EscapeHtmlIsPerChar(s);
    EscapeEachLength(s);
  }

  /** Text without `&`, `<` or `>` is left as it is. */
  lemma EscapeHtmlPlain(s: string)
    requires '&' !in s && '<' !in s && '>' !in s
    ensures EscapeHtml(s) == s
  {
    ReplaceAllAbsent(s, '&', "&amp;");
    ReplaceAllAbsent(s, '<', "&lt;");
    ReplaceAllAbsent(s, '>', "&gt;");
  }

  /** No double escaping: `<` becomes exactly `&lt;`, not `&amp;lt;`. */
  lemma EscapeHtmlSpecials()
    ensures EscapeHtml("<") == "&lt;"
    ensures EscapeHtml(">") == "&gt;"
    ensures EscapeHtml("&") == "&amp;"
  {
    EscapeHtmlOfChar('<');
    EscapeHtmlOfChar('>');
    EscapeHtmlOfChar('&');
  }

  /** Why `&` must go first: replacing `<` before `&` would escape the new
      entity's own ampersand. */
  lemma AmpersandLastDoubleEscapes()
    ensures ReplaceAll(ReplaceAll("<", '<', "&lt;"), '&', "&amp;") == "&amp;lt;"
  {
    ReplaceAllAppend("&", "lt;", '&', "&amp;");
    ReplaceAllAbsent("lt;", '&', "&amp;");
  }

  /** Reads the three entities back: `&amp;`, `&lt;` and `&gt;` become the
      character they stand for, anything else is kept. */
  function Unescape(s: string): string
    decreases |s|
  {
    if s == [] then []
    else if |s| >= 5 && s[..5] == "&amp;" then "&" + Unescape(s[5..])
    else if |s| >= 4 && s[..4] == "&lt;" then "<" + Unescape(s[4..])
    else if |s| >= 4 && s[..4] == "&gt;" then ">" + Unescape(s[4..])
    else [s[0]] + Unescape(s[1..])
  }

  lemma UnescapeEntity(c: char, rest: string)
    ensures Unescape(EscapeChar(c) + rest) == [c] + Unescape(rest)
  {
    var s := EscapeChar(c) + rest;
    if c == '&' {
      assert s[..5] == "&amp;" && s[5..] == rest;
    } else if c == '<' {
      assert s[1] == 'l';
      assert s[..4] == "&lt;" && s[4..] == rest;
    } else if c == '>' {
      assert s[1] == 'g';
      assert s[..4] == "&gt;" && s[4..] == rest;
    } else {
      UnescapePlainChar(c, rest);
    }
  }

  lemma UnescapePlainChar(c: char, rest: string)
    requires c != '&'
    ensures Unescape([c] + rest) == [c] + Unescape(rest)
  {
    var s := [c] + rest;
    assert s[0] == c && s[1..] == rest;
  }

  lemma {:induction false} UnescapeEscapeEach(s: string)
    ensures Unescape(EscapeEach(s)) == s
  {
    if s != [] {
      UnescapeEntity(s[0], EscapeEach(s[1..]));
      UnescapeEscapeEach(s[1..]);
    }
  }

  /** Reversing the entities recovers the original text, so escaping loses
      nothing and two different texts never render alike. */
  lemma EscapeHtmlRoundTrip(s: string)
    ensures Unescape(EscapeHtml(s)) == s
  {
    EscapeHtmlIsPerChar(s);
    UnescapeEscapeEach(s);
  }

  lemma EscapeHtmlInjective(a: string, b: string)
    requires EscapeHtml(a) == EscapeHtml(b)
    ensures a == b
  {
    EscapeHtmlRoundTrip(a);
    EscapeHtmlRoundTrip(b);
  }

  // ---------------------------------------------------------------------------
  // rendering a message

  lemma {:induction false} CountAppend(a: string, b: string, c: char)
    ensures Count(a + b, c) == Count(a, c) + Count(b, c)
  {
    if a == [] {
      assert a + b == b;
    } else {
      assert (a + b)[1..] == a[1..] + b;
      CountAppend(a[1..], b, c);
    }
  }

  lemma {:induction false} CountAbsent(s: string, c: char)
    requires c !in s
    ensures Count(s, c) == 0
  {
    if s != [] {
      CountAbsent(s[1..], c);
    }
  }

  /** The markup the client inserts for a history entry or a live message,
      given the already formatted time. The username and the text are
      escaped, so whatever a user chose, the line opens exactly the two tags
      the client writes itself, plus any in the time string. */
  function MessageHtml(shownTime: string, m: Message): (html: string)
    ensures Count(html, '<') == Count(shownTime, '<') + 2
  {
    var u, t := EscapeHtml(m.username), EscapeHtml(m.text);
    CountAbsent(u, '<');
    CountAbsent(t, '<');
    CountAppend(shownTime, " <strong>", '<');
    CountAppend(shownTime + " <strong>", u, '<');
    CountAppend(shownTime + " <strong>" + u, ":</strong> ", '<');
    CountAppend(shownTime + " <strong>" + u + ":</strong> ", t, '<');
    assert Count(" <strong>", '<') == 1;
    assert Count(":</strong> ", '<') == 1;
    shownTime + " <strong>" + u + ":</strong> " + t
  }

  // ---------------------------------------------------------------------------
  // joinChatIfNeeded and the submit handler

  /** The name `joinChatIfNeeded` sends: the trimmed name box, or "Anônimo"
      when that is empty. */
  function JoinName(nameInput: string): (name: string)
    ensures name != ""
    ensures !AllSpace(nameInput) ==> name == Trim(nameInput)
    ensures AllSpace(nameInput) ==> name == Anonymous
  {
    OrAnonymous(Some(Trim(nameInput)))
  }

  /** The server's own `|| "Anônimo"` never changes a name this client sends. */
  lemma ServerKeepsJoinName(nameInput: string)
    ensures OrAnonymous(Some(JoinName(nameInput))) == JoinName(nameInput)
  {
  }

  /** What one press of the send button emits. A message box that trims to
      nothing emits nothing at all; otherwise a join with the trimmed name
      goes out first and the trimmed text right after it. */
  function Submit(nameInput: string, messageInput: string): (out: seq<ClientEvent>)
    ensures out == [] <==> AllSpace(messageInput)
    ensures out != [] ==> |out| == 2 && out[0] == Join(Some(JoinName(nameInput)))
    ensures out != [] ==> out[1] == Chat(Trim(messageInput))
  {
    var message := Trim(messageInput);
    if message == "" then []
    else [Join(Some(JoinName(nameInput))), Chat(message)]
  }

  /** Everything the client emits over a run of submits, each given as the
      contents of the name box and the message box at that moment. The
      stream alternates strictly: joins at the even positions, chat messages
      at the odd ones. */
  function Emitted(submits: seq<(string, string)>): (out: seq<ClientEvent>)
    ensures Alternates(out)
  {
    if submits == [] then []
    else
      var last := submits[|submits| - 1];
      var prefix, tail := Emitted(submits[..|submits| - 1]), Submit(last.0, last.1);
      AlternatesAppend(prefix, tail);
      prefix + tail
  }

  /** Even length, joins exactly at the even positions. */
  predicate Alternates(events: seq<ClientEvent>) {
    |events| % 2 == 0 && forall i :: 0 <= i < |events| ==> (events[i].Join? <==> i % 2 == 0)
  }

  lemma AlternatesAppend(a: seq<ClientEvent>, b: seq<ClientEvent>)
    requires Alternates(a) && Alternates(b)
    ensures Alternates(a + b)
  {
    forall i | |a| <= i < |a + b| ensures ((a + b)[i].Join? <==> i % 2 == 0) {
      assert (a + b)[i] == b[i - |a|];
    }
  }

  /** A chat text as the client sends it: non-empty, no whitespace at
      either end. */
  predicate Trimmed(t: string) {
    t != "" && !IsSpace(t[0]) && !IsSpace(t[|t| - 1])
  }

  /** Every chat message comes right after a join and carries trimmed text. */
  predicate JoinFirst(events: seq<ClientEvent>) {
    forall i :: 0 <= i < |events| && events[i].Chat? ==>
      0 < i && events[i - 1].Join? && Trimmed(events[i].text)
  }

  lemma JoinFirstAppend(a: seq<ClientEvent>, b: seq<ClientEvent>)
    requires JoinFirst(a) && JoinFirst(b)
    requires b != [] ==> b[0].Join?
    ensures JoinFirst(a + b)
  {
    var e := a + b;
    forall i | 0 <= i < |e| && e[i].Chat?
      ensures 0 < i && e[i - 1].Join? && Trimmed(e[i].text)
    {
      if i < |a| {
        assert e[i] == a[i] && e[i - 1] == a[i - 1];
      } else {
        assert e[i] == b[i - |a|];
        assert e[i - 1] == b[i - 1 - |a|];
      }
    }
  }

  /** In the emitted stream every chat message comes right after a join, and
      its text is non-empty with no whitespace at either end. */
  lemma {:induction false} JoinPrecedesEveryChat(submits: seq<(string, string)>)
    ensures JoinFirst(Emitted(submits))
  {
    if submits != [] {
      var init := submits[..|submits| - 1];
      var last := submits[|submits| - 1];
      JoinPrecedesEveryChat(init);
      var tail := Submit(last.0, last.1);
      assert JoinFirst(tail);
      JoinFirstAppend(Emitted(init), tail);
    }
  }

  /** Each submit that emits anything emits one join and one chat message, so
      the stream holds as many joins as chat messages. */
  function ChatCount(events: seq<ClientEvent>): nat {
    if events == [] then 0
    else (if events[0].Chat? then 1 else 0) + ChatCount(events[1..])
  }

  function JoinCount(events: seq<ClientEvent>): nat {
    if events == [] then 0
    else (if events[0].Join? then 1 else 0) + JoinCount(events[1..])
  }

  lemma {:induction false} CountsAppend(a: seq<ClientEvent>, b: seq<ClientEvent>)
    ensures ChatCount(a + b) == ChatCount(a) + ChatCount(b)
    ensures JoinCount(a + b) == JoinCount(a) + JoinCount(b)
  {
    if a == [] {
      assert a + b == b;
    } else {
      assert (a + b)[1..] == a[1..] + b;
      CountsAppend(a[1..], b);
    }
  }

  lemma SubmitBalanced(nameInput: string, messageInput: string)
    ensures JoinCount(Submit(nameInput, messageInput)) == ChatCount(Submit(nameInput, messageInput))
  {
    var t := Submit(nameInput, messageInput);
    if t != [] {
      var join, chat := t[0], t[1];
      assert t == [join, chat];
      assert [join, chat][1..] == [chat] && [chat][1..] == [];
      assert JoinCount([chat]) == 0 && ChatCount([chat]) == 1;
      assert JoinCount([join, chat]) == 1 && ChatCount([join, chat]) == 1;
    }
  }

  /** Every message sent is accompanied by its own join, so other sockets see
      one "entrou no chat." notice per message, not one per session. */
  lemma {:induction false} OneJoinPerChat(submits: seq<(string, string)>)
    ensures JoinCount(Emitted(submits)) == ChatCount(Emitted(submits))
  {
    if submits != [] {
      var init := submits[..|submits| - 1];
      var last := submits[|submits| - 1];
      OneJoinPerChat(init);
      CountsAppend(Emitted(init), Submit(last.0, last.1));
      SubmitBalanced(last.0, last.1);
    }
  }
}
