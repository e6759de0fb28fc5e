/**
 Preparing a Slack message for the AI (`format_ai_message_content`): Slack
 sends `&`, `<` and `>` as the HTML entities `&amp;`, `&lt;` and `&gt;`; the
 formatter turns them back into characters with three `str.replace` passes, in
 the order `&lt;`, `&gt;`, `&amp;`, and then optionally converts Slack mrkdwn
 to markdown.
 */
module AiMessage {
  import opened PyText

  /** The three replacement passes, in the source's order. Each pass only
      shortens the text, and text without `&` has nothing to replace. */
  function Unescape(s: string): (r: string)
    ensures |r| <= |s|
    ensures '&' !in s ==> r == s
  {
    Replace(Replace(Replace(s, "&lt;", "<"), "&gt;", ">"), "&amp;", "&")
  }

  /** `format_ai_message_content(content, translate_markdown)`. `None` is passed
      through; `slackToMarkdown` stands for `slack_to_markdown`, which is not
      part of this model. */
  function FormatAiMessageContent(content: Option<string>, translateMarkdown: bool,
                                  slackToMarkdown: string -> string): (r: Option<string>)
    ensures r.None? <==> content.None?
    ensures !translateMarkdown && content.Some? ==> |r.value| <= |content.value|
    ensures !translateMarkdown && content.Some? && '&' !in content.value ==> r == content
  {
    match content
    case None => None
    case Some(text) =>
      var unescaped := Unescape(text);
      Some(if translateMarkdown then slackToMarkdown(unescaped) else unescaped)
  }

  /** Slack's escaping of message text: `&`, `<` and `>` become entities. */
  function EscapeChar(c: char): string {
    if c == '&' then "&amp;" else if c == '<' then "&lt;" else if c == '>' then "&gt;" else [c]
  }

  function SlackEscape(s: string): string {
    if s == [] then [] else EscapeChar(s[0]) + SlackEscape(s[1..])
  }

  /** What is left after the `&lt;` pass: `<` restored, `&` and `>` still escaped. */
  function LtRestored(s: string): string {
    if s == [] then []
    else (if s[0] == '<' then "<" else EscapeChar(s[0])) + LtRestored(s[1..])
  }

  /** What is left after the `&gt;` pass: only `&` still escaped. */
  function AmpEscaped(s: string): string {
    if s == [] then [] else (if s[0] == '&' then "&amp;" else [s[0]]) + AmpEscaped(s[1..])
  }

  /** An entity (or any piece of text) that differs from the pattern in its
      second character and does not contain the pattern's first character
      after its own first one is copied through. */
  lemma ReplaceSkipsEntity(e: string, rest: string, pat: string, rep: string)
    requires |pat| > 1 && |e| >= |pat| && e[1] != pat[1]
    requires forall k :: 1 <= k < |e| ==> e[k] != pat[0]
    ensures Replace(e + rest, pat, rep) == e + Replace(rest, pat, rep)
  {
    var s := e + rest;
    assert s[..|pat|][1] == e[1];
    ReplaceSkipHead(s, pat, rep);
    assert s[1..] == e[1..] + rest;
    ReplaceLiteralPrefix(e[1..], rest, pat, rep);
    assert [e[0]] + e[1..] == e;
  }

  lemma {:induction false} LtPass(s: string)
    ensures Replace(SlackEscape(s), "&lt;", "<") == LtRestored(s)
    decreases |s|
  {
    if s == [] {
    } else {
      var rest := SlackEscape(s[1..]);
      LtPass(s[1..]);
      var c := s[0];
      if c == '<' {
        ReplaceMatchHead(rest, "&lt;", "<");
      } else if c == '&' || c == '>' {
        ReplaceSkipsEntity(EscapeChar(c), rest, "&lt;", "<");
      } else {
        ReplaceLiteralPrefix([c], rest, "&lt;", "<");
      }
    }
  }

  lemma {:induction false} GtPass(s: string)
    ensures Replace(LtRestored(s), "&gt;", ">") == AmpEscaped(s)
    decreases |s|
  {
    if s == [] {
    } else {
      var rest := LtRestored(s[1..]);
      GtPass(s[1..]);
      var c := s[0];
      if c == '>' {
        ReplaceMatchHead(rest, "&gt;", ">");
      } else if c == '&' {
        ReplaceSkipsEntity("&amp;", rest, "&gt;", ">");
      } else {
        ReplaceLiteralPrefix([c], rest, "&gt;", ">");
      }
    }
  }

  lemma {:induction false} AmpPass(s: string)
    ensures Replace(AmpEscaped(s), "&amp;", "&") == s
    decreases |s|
  {
    if s == [] {
    } else {
      var rest := AmpEscaped(s[1..]);
      AmpPass(s[1..]);
      if s[0] == '&' {
        ReplaceMatchHead(rest, "&amp;", "&");
      } else {
        ReplaceLiteralPrefix([s[0]], rest, "&amp;", "&");
      }
      assert [s[0]] + s[1..] == s;
    }
  }

  /** Undoing Slack's escaping: whatever the user typed, escaping it the way
      Slack does and formatting it without markdown translation gives it back. */
  lemma EscapeRoundTrip(s: string, slackToMarkdown: string -> string)
    ensures FormatAiMessageContent(Some(SlackEscape(s)), false, slackToMarkdown) == Some(s)
  {
    LtPass(s);
    GtPass(s);
    AmpPass(s);
  }

  /** The `&lt;` pass finds nothing to replace in `&amp;lt;`... */
  lemma LtPassKeepsAmpLt()
    ensures Replace("&amp;lt;", "&lt;", "<") == "&amp;lt;"
  {
    var s := "&amp;lt;";
    ReplaceSkipsEntity(s, [], "&lt;", "<");
    assert s + [] == s;
  }

  /** ... and neither does the `&gt;` pass. */
  lemma GtPassKeepsAmpLt()
    ensures Replace("&amp;lt;", "&gt;", ">") == "&amp;lt;"
  {
    var s := "&amp;lt;";
    ReplaceSkipsEntity(s, [], "&gt;", ">");
    assert s + [] == s;
  }

  /** The last pass turns `&amp;lt;` into `&lt;`. */
  lemma AmpPassOnAmpLt()
    ensures Replace("&amp;lt;", "&amp;", "&") == "&lt;"
  {
    var s := "&amp;lt;";
    assert s == "&amp;" + "lt;";
    ReplaceMatchHead("lt;", "&amp;", "&");
  }

  /** Each pass runs once, so an entity that only appears after the `&amp;`
      pass stays: `&amp;lt;` becomes `&lt;`, not `<`. */
  lemma EntitiesUnescapedOnce(slackToMarkdown: string -> string)
    ensures FormatAiMessageContent(Some("&amp;lt;"), false, slackToMarkdown) == Some("&lt;")
  {
    LtPassKeepsAmpLt();
    GtPassKeepsAmpLt();
    AmpPassOnAmpLt();
    assert Unescape("&amp;lt;") == "&lt;";
  }

  /** Hence the formatting is not idempotent: a second application turns the
      `&lt;` left by the first one into `<`. */
  lemma UnescapeNotIdempotent()
    ensures Unescape(Unescape("&amp;lt;")) != Unescape("&amp;lt;")
  {
    EntitiesUnescapedOnce(x => x);
    var t := "&lt;";
    assert Replace(t, "&lt;", "<") == "<" by {
      assert t == "&lt;" + [];
      ReplaceMatchHead([], "&lt;", "<");
    }
    assert Unescape(t) == "<";
  }
}
