/**
 Preparing the AI's reply for Slack (`format_assistant_reply`): an ordered
 table of `re.sub` substitutions applied one after the other, then an
 optional markdown-to-mrkdwn conversion.

 Each pattern of the table is matched by hand-written code rather than by a
 regular-expression engine. `re.sub` replaces every non-overlapping match,
 scanning left to right; `^` without MULTILINE matches only at the start of
 the text, so the first two rules act at most once, on a prefix.
 */
module AssistantReply {
  import opened PyText

  /** The characters a one-character pattern accepts: `"Rr"` for `[Rr]`,
      `"u"` for the literal `u`. */
  type CharClass = seq<char>

  /** The characters the language patterns use: letters and `+`. */
  predicate TagChar(c: char) {
    ('A' <= c <= 'Z') || ('a' <= c <= 'z') || c == '+'
  }

  /** A class of the language patterns: it accepts letters and `+` only. */
  type LetterClass = cls: CharClass | forall i :: 0 <= i < |cls| ==> TagChar(cls[i])

  /** A language name as a non-empty sequence of classes. */
  type Tag = t: seq<LetterClass> | |t| > 0 witness ["a"]

  /** One row of the substitution table. */
  datatype Rule =
    | LeadingNewlines        // "^\n+"                 -> ""
    | UserMention            // "^<@U.*?>\s?:\s?"      -> ""
    | LanguageFence(tag: Tag) // "```\s*" + tag + "\n" -> "```\n"

  const Fence: string := "```"
  const BareFence: string := "```\n"

  /** The table, in the source's order; the language patterns are copied as
      written, so `[Oo]objective[Cc]` needs "oobjective" and `[Ty]ype[Ss]cript`
      accepts `T` or `y` but not `t`. */
  const Rules: seq<Rule> := [
    LeadingNewlines,
    UserMention,
    LanguageFence(["Rr", "u", "s", "t"]),
    LanguageFence(["Rr", "u", "b", "y"]),
    LanguageFence(["Ss", "c", "a", "l", "a"]),
    LanguageFence(["Kk", "o", "t", "l", "i", "n"]),
    LanguageFence(["Jj", "a", "v", "a"]),
    LanguageFence(["Gg", "o"]),
    LanguageFence(["Ss", "w", "i", "f", "t"]),
    LanguageFence(["Oo", "o", "b", "j", "e", "c", "t", "i", "v", "e", "Cc"]),
    LanguageFence(["Cc"]),
    LanguageFence(["Cc", "+", "+"]),
    LanguageFence(["Cc", "Pp", "Pp"]),
    LanguageFence(["Cc", "s", "h", "a", "r", "p"]),
    LanguageFence(["Mm", "Aa", "Tt", "Ll", "Aa", "Bb"]),
    LanguageFence(["Jj", "Ss", "Oo", "Nn"]),
    LanguageFence(["Ll", "a", "Tt", "e", "Xx"]),
    LanguageFence(["b", "a", "s", "h"]),
    LanguageFence(["z", "s", "h"]),
    LanguageFence(["s", "h"]),
    LanguageFence(["Ss", "Qq", "Ll"]),
    LanguageFence(["Pp", "Hh", "Pp"]),
    LanguageFence(["Pp", "Ee", "Rr", "Ll"]),
    LanguageFence(["Jj", "a", "v", "a", "Ss", "c", "r", "i", "p", "t"]),
    LanguageFence(["Ty", "y", "p", "e", "Ss", "c", "r", "i", "p", "t"]),
    LanguageFence(["Pp", "y", "t", "h", "o", "n"])
  ]

  // ---------------------------------------------------------------- "^\n+"

  /** `re.sub("^\n+", "", s)`: the result is what is left of `s` after its
      leading run of newlines. */
  function StripLeadingNewlines(s: string): (r: string)
    ensures |r| <= |s|
  {
    if s != [] && s[0] == '\n' then StripLeadingNewlines(s[1..]) else s
  }

  /** Exactly the leading run of newlines goes: what is left is a suffix of
      `s`, everything before it is `\n`, and it does not start with `\n`. */
  lemma {:induction false} LeadingNewlinesRemoved(s: string)
    ensures var r := StripLeadingNewlines(s);
            && r == s[|s| - |r|..]
            && (forall k :: 0 <= k < |s| - |r| ==> s[k] == '\n')
            && (r == [] || r[0] != '\n')
    decreases |s|
  {
    if s != [] && s[0] == '\n' {
      LeadingNewlinesRemoved(s[1..]);
    }
  }

  // ----------------------------------------------------- "^<@U.*?>\s?:\s?"

  /** Where `\s?` ends when it starts at `j`: it takes one whitespace character if there is one. */
  function OptionalSpace(s: string, j: nat): (e: nat)
    requires j <= |s|
    ensures j <= e <= |s| && e <= j + 1
  {
    if j < |s| && IsSpace(s[j]) then j + 1 else j
  }

  /** Where `\s?:\s?` ends when it starts at `j`, if it can match there. The
      first `\s?` is greedy: it takes a whitespace character when a colon
      follows it, and otherwise matches nothing. */
  function ColonAt(s: string, j: nat): (e: Option<nat>)
    requires j <= |s|
    ensures e.Some? ==> j < e.value <= |s|
    ensures e.Some? <==> (j < |s| && s[j] == ':') || (j + 1 < |s| && IsSpace(s[j]) && s[j + 1] == ':')
  {
    if j + 1 < |s| && IsSpace(s[j]) && s[j + 1] == ':' then Some(OptionalSpace(s, j + 2))
    else if j < |s| && s[j] == ':' then Some(OptionalSpace(s, j + 1))
    else None
  }

  /** `>` at `k` followed by a match of `\s?:\s?`. */
  predicate ClosesAt(s: string, k: nat)
    requires k < |s|
  {
    s[k] == '>' && ColonAt(s, k + 1).Some?
  }

  /** Where the lazy `.*?` stops, starting at `i`: the first `k` whose `>`
      closes the mention, provided no newline (which `.` does not match) comes
      before it. */
  function MentionClose(s: string, i: nat): (c: Option<nat>)
    requires i <= |s|
    ensures c.Some? ==> i <= c.value < |s| && ClosesAt(s, c.value)
    ensures c.Some? ==> forall k :: i <= k < c.value ==> s[k] != '\n' && !ClosesAt(s, k)
    ensures c.None? ==> forall k :: i <= k < |s| && ClosesAt(s, k) ==> exists m :: i <= m < k && s[m] == '\n'
    decreases |s| - i
  {
    if i == |s| then None
    else if ClosesAt(s, i) then Some(i)
    else if s[i] == '\n' then None
    else MentionClose(s, i + 1)
  }

  predicate StartsWithMentionPrefix(s: string) {
    |s| >= 3 && s[..3] == "<@U"
  }

  /** Where the match of `^<@U.*?>\s?:\s?` ends, if the text starts with one. */
  function MentionEnd(s: string): (e: Option<nat>)
    ensures e.Some? ==> StartsWithMentionPrefix(s) && 4 < e.value <= |s|
  {
    if StartsWithMentionPrefix(s) then
      match MentionClose(s, 3)
      case Some(c) => ColonAt(s, c + 1)
      case None => None
    else None
  }

  /** `re.sub("^<@U.*?>\\s?:\\s?", "", s)`. */
  function StripMention(s: string): (r: string)
    ensures |r| <= |s| && r == s[|s| - |r|..]
    ensures !StartsWithMentionPrefix(s) ==> r == s
  {
    match MentionEnd(s)
    case Some(e) => s[e..]
    case None => s
  }

  // ------------------------------------------------------ "```\s*TAG\n"

  /** The first position at or after `i` that is not whitespace. */
  function SpaceEnd(s: string, i: nat): (j: nat)
    requires i <= |s|
    ensures i <= j <= |s|
    ensures forall k :: i <= k < j ==> IsSpace(s[k])
    ensures j < |s| ==> !IsSpace(s[j])
    decreases |s| - i
  {
    if i < |s| && IsSpace(s[i]) then SpaceEnd(s, i + 1) else i
  }

  /** The characters from `j` on match the classes of `tag`, one each. */
  predicate TagAt(s: string, j: nat, tag: Tag) {
    j + |tag| <= |s| && forall k :: 0 <= k < |tag| ==> s[j + k] in tag[k]
  }

  /** The length of the match of "```\s*" + tag + "\n" at the start of `s`, if
      there is one. `\s*` is greedy; see `FenceMatchIsRegexMatch` for why
      taking the whole whitespace run is the only way the pattern can match. */
  function FenceMatch(s: string, tag: Tag): (n: Option<nat>)
    ensures n.Some? ==> |BareFence| <= n.value <= |s|
  {
    if |s| >= 3 && s[..3] == Fence then
      var j := SpaceEnd(s, 3);
      if TagAt(s, j, tag) && j + |tag| < |s| && s[j + |tag|] == '\n' then Some(j + |tag| + 1) else None
    else None
  }

  /** `re.sub("```\\s*" + tag + "\n", "```\n", s)`. */
  function SubFence(s: string, tag: Tag): (r: string)
    ensures |r| <= |s|
    decreases |s|
  {
    if s == [] then []
    else match FenceMatch(s, tag)
      case Some(n) => BareFence + SubFence(s[n..], tag)
      case None => [s[0]] + SubFence(s[1..], tag)
  }

  // ------------------------------------------------------------ the table

  function ApplyRule(rule: Rule, s: string): (r: string)
    ensures |r| <= |s|
  {
    match rule
    case LeadingNewlines => StripLeadingNewlines(s)
    case UserMention => StripMention(s)
    case LanguageFence(tag) => SubFence(s, tag)
  }

  /** The rules applied one after the other, each to the previous one's result. */
  function ApplyRules(rules: seq<Rule>, s: string): (r: string)
    ensures |r| <= |s|
  {
    if rules == [] then s else ApplyRules(rules[1..], ApplyRule(rules[0], s))
  }

  /** `format_assistant_reply(content, translate_markdown)`; `markdownToSlack`
      stands for `markdown_to_slack`, which is not part of this model. Without
      markdown translation the reply never gets longer. */
  function FormatReply(content: string, translateMarkdown: bool,
                       markdownToSlack: string -> string): (r: string)
    ensures !translateMarkdown ==> |r| <= |content|
  {
    var stripped := ApplyRules(Rules, content);
    if translateMarkdown then markdownToSlack(stripped) else stripped
  }

  /** The loop of `format_assistant_reply` over its table. */
  method FormatAssistantReply(content: string, translateMarkdown: bool,
                              markdownToSlack: string -> string) returns (r: string)
    ensures r == FormatReply(content, translateMarkdown, markdownToSlack)
  {
    r := content;
    for i := 0 to |Rules|
      invariant ApplyRules(Rules[i..], r) == ApplyRules(Rules, content)
    {
      assert Rules[i..][0] == Rules[i] && Rules[i..][1..] == Rules[i + 1..];
      r := ApplyRule(Rules[i], r);
    }
    if translateMarkdown {
      r := markdownToSlack(r);
    }
  }

  // ------------------------------------------------------------ properties

  /** No class of a tag accepts whitespace, a backquote or a newline. */
  lemma TagCharIsNotSpace(tag: Tag, k: nat, c: char)
    requires k < |tag| && c in tag[k]
    ensures !IsSpace(c) && c != '`' && c != '\n'
  {
    var i :| 0 <= i < |tag[k]| && tag[k][i] == c;
    assert TagChar(tag[k][i]);
  }

  /** Every rule is a language fence. */
  predicate FenceRulesOk(rules: seq<Rule>) {
    forall i :: 0 <= i < |rules| ==> rules[i].LanguageFence?
  }

  /** The shape of the table: two anchored rules, then language fences only. */
  lemma RulesShape()
    ensures Rules[0] == LeadingNewlines && Rules[1] == UserMention
    ensures FenceRulesOk(Rules[2..])
  {
  }

  /** Running the table is stripping the leading newlines, then the mention,
      then running the language rules. */
  lemma ApplyRulesTable(s: string)
    ensures ApplyRules(Rules, s) == ApplyRules(Rules[2..], StripMention(StripLeadingNewlines(s)))
  {
    RulesShape();
    var t := Rules[1..];
    assert t[0] == UserMention && t[1..] == Rules[2..];
  }

  /** The regular expression "```\s*" + tag + "\n" matches the start of `s`
      with `\s*` taking exactly `w` characters. */
  predicate RegexFence(s: string, w: nat, tag: Tag) {
    && 3 + w + |tag| < |s|
    && s[..3] == Fence
    && (forall k :: 3 <= k < 3 + w ==> IsSpace(s[k]))
    && TagAt(s, 3 + w, tag)
    && s[3 + w + |tag|] == '\n'
  }

  /** Whatever amount of whitespace the backtracking `\s*` tries, the regular
      expression matches exactly when `FenceMatch` reports that match: since a
      tag never starts with whitespace, only the whole whitespace run can work. */
  lemma FenceMatchIsRegexMatch(s: string, w: nat, tag: Tag)
    ensures RegexFence(s, w, tag) <==> FenceMatch(s, tag) == Some(3 + w + |tag| + 1)
  {
    if RegexFence(s, w, tag) {
      var j := SpaceEnd(s, 3);
      assert s[3 + w + 0] in tag[0];
      TagCharIsNotSpace(tag, 0, s[3 + w]);
      assert j == 3 + w;
    }
  }

  /** Text without a backquote is copied through by a fence rule. */
  lemma {:induction false} SubFenceLiteralPrefix(p: string, rest: string, tag: Tag)
    requires '`' !in p
    ensures SubFence(p + rest, tag) == p + SubFence(rest, tag)
    decreases |p|
  {
    if p == [] {
      assert p + rest == rest;
    } else {
      var s := p + rest;
      assert s[0] == p[0];
      assert !(|s| >= 3 && s[..3] == Fence) by {
        assert |s| >= 3 ==> s[..3][0] == p[0];
      }
      assert FenceMatch(s, tag) == None;
      assert s[1..] == p[1..] + rest;
      calc {
        SubFence(s, tag);
        [p[0]] + SubFence(p[1..] + rest, tag);
        { SubFenceLiteralPrefix(p[1..], rest, tag); }
        [p[0]] + (p[1..] + SubFence(rest, tag));
        { assert [p[0]] + p[1..] == p; }
        p + SubFence(rest, tag);
      }
    }
  }

  /** A fence, any whitespace (newlines included), a listed language name and
      a newline become a bare fence, and the scan goes on after the newline. */
  lemma SubFenceStripsTag(ws: string, name: string, rest: string, tag: Tag)
    requires forall k :: 0 <= k < |ws| ==> IsSpace(ws[k])
    requires |name| == |tag| && TagAt(name, 0, tag)
    ensures SubFence(Fence + ws + name + "\n" + rest, tag) == BareFence + SubFence(rest, tag)
  {
    var s := Fence + ws + name + "\n" + rest;
    var w := |ws|;
    assert s[..3] == Fence;
    assert forall k :: 3 <= k < 3 + w ==> s[k] == ws[k - 3];
    assert forall k :: 0 <= k < |tag| ==> s[3 + w + k] == name[k];
    assert s[3 + w + |tag|] == '\n';
    assert RegexFence(s, w, tag);
    FenceMatchIsRegexMatch(s, w, tag);
    assert s[3 + w + |tag| + 1..] == rest;
  }

  /** Because `\s*` also matches newlines, a bare fence whose first code line
      is exactly a language name loses that line: the `sh` rule turns
      "```\nsh\n" into "```\n". */
  lemma BareFenceLosesLanguageLine()
    ensures SubFence("```\nsh\n", ["s", "h"]) == "```\n"
  {
    var tag: Tag := ["s", "h"];
    assert TagAt("sh", 0, tag);
    SubFenceStripsTag("\n", "sh", [], tag);
    assert Fence + "\n" + "sh" + "\n" + [] == "```\nsh\n";
  }

  /** "```" starts at position `k` of `s`. */
  predicate FenceAt(s: string, k: nat) {
    k + 3 <= |s| && s[k] == '`' && s[k + 1] == '`' && s[k + 2] == '`'
  }

  /** `s` contains no "```". */
  predicate NoFence(s: string) {
    forall k :: 0 <= k < |s| ==> !FenceAt(s, k)
  }

  /** A fence rule leaves text without "```" unchanged. */
  lemma {:induction false} SubFenceNoFence(s: string, tag: Tag)
    requires NoFence(s)
    ensures SubFence(s, tag) == s
    decreases |s|
  {
    if s != [] {
      assert !FenceAt(s, 0);
      assert !(|s| >= 3 && s[..3] == Fence) by {
        assert |s| >= 3 ==> s[..3][0] == s[0] && s[..3][1] == s[1] && s[..3][2] == s[2];
      }
      assert NoFence(s[1..]) by {
        forall k | 0 <= k < |s[1..]|
          ensures !FenceAt(s[1..], k)
        {
          assert !FenceAt(s, k + 1);
        }
      }
      SubFenceNoFence(s[1..], tag);
    }
  }

  /** The language patterns are copied as written, quirks included:
      `[Oo]objective[Cc]` does not match the usual spelling "objectivec"... */
  lemma ObjectiveCRejectsUsualSpelling()
    ensures FenceMatch("```objectivec\n", Rules[9].tag) == None
  {
    var bad := "```objectivec\n";
    assert SpaceEnd(bad, 3) == 3;
    assert bad[3 + 1] !in Rules[9].tag[1];
  }

  /** ... only "oobjectivec". */
  lemma ObjectiveCAcceptsDoubleO()
    ensures FenceMatch("```oobjectivec\n", Rules[9].tag) == Some(15)
  {
    var good := "```oobjectivec\n";
    assert RegexFence(good, 0, Rules[9].tag);
    FenceMatchIsRegexMatch(good, 0, Rules[9].tag);
  }

  /** `[Ty]ype[Ss]cript` does not accept "typescript"... */
  lemma TypeScriptRejectsLowercase()
    ensures FenceMatch("```typescript\n", Rules[24].tag) == None
  {
    var bad := "```typescript\n";
    assert SpaceEnd(bad, 3) == 3;
    assert bad[3] !in Rules[24].tag[0];
  }

  /** ... but accepts "Typescript"... */
  lemma TypeScriptAcceptsCapitalT()
    ensures FenceMatch("```Typescript\n", Rules[24].tag) == Some(14)
  {
    var upper := "```Typescript\n";
    assert RegexFence(upper, 0, Rules[24].tag);
    FenceMatchIsRegexMatch(upper, 0, Rules[24].tag);
  }

  /** ... and "yypescript". */
  lemma TypeScriptAcceptsY()
    ensures FenceMatch("```yypescript\n", Rules[24].tag) == Some(14)
  {
    var odd := "```yypescript\n";
    assert RegexFence(odd, 0, Rules[24].tag);
    FenceMatchIsRegexMatch(odd, 0, Rules[24].tag);
  }

  /** Language-fence rules applied in a row leave text without "```" unchanged. */
  lemma {:induction false} FenceRulesNoOp(rules: seq<Rule>, s: string)
    requires FenceRulesOk(rules)
    requires NoFence(s)
    ensures ApplyRules(rules, s) == s
    decreases |rules|
  {
    if rules != [] {
      SubFenceNoFence(s, rules[0].tag);
      FenceRulesNoOp(rules[1..], s);
    }
  }

  /** Without markdown translation a reply that does not start with a newline
      or with "<@U" and contains no "```" is returned unchanged. */
  lemma FormatReplyNoOp(s: string, markdownToSlack: string -> string)
    requires s == [] || s[0] != '\n'
    requires !StartsWithMentionPrefix(s)
    requires NoFence(s)
    ensures FormatReply(s, false, markdownToSlack) == s
  {
    RulesShape();
    ApplyRulesTable(s);
    FenceRulesNoOp(Rules[2..], s);
  }

  /** The pattern of the last rule of the table, `[Pp]ython`. */
  const PythonTag: Tag := ["Pp", "y", "t", "h", "o", "n"]

  /** A language pattern cannot match "python" when its first class rejects
      `p` or its second rejects `y` (`[Pp]HP` and `[Pp]erl`, among others). */
  predicate RejectsPython(tag: Tag) {
    'p' !in tag[0] || (|tag| > 1 && 'y' !in tag[1])
  }

  /** The table, as far as "python" is concerned: every language rule but
      the last rejects it, and the last is the Python rule. */
  lemma NoRuleBeforePythonMatchesIt()
    ensures forall i :: 2 <= i < 25 ==> Rules[i].LanguageFence? && RejectsPython(Rules[i].tag)
    ensures |Rules| == 26 && Rules[25] == LanguageFence(PythonTag)
  {
  }

  /** The same, for the language rules on their own. */
  lemma LanguageRulesBeforePython(rules: seq<Rule>)
    requires |rules| == 26 && rules[25] == LanguageFence(PythonTag)
    requires forall i :: 2 <= i < 25 ==> rules[i].LanguageFence? && RejectsPython(rules[i].tag)
    ensures var fences := rules[2..];
            && |fences| > 0 && fences[|fences| - 1] == LanguageFence(PythonTag)
            && forall i :: 0 <= i < |fences| - 1 ==> fences[i].LanguageFence? && RejectsPython(fences[i].tag)
  {
    var fences := rules[2..];
    assert forall i :: 0 <= i < |fences| ==> fences[i] == rules[i + 2];
  }

  /** A fence rule whose tag rejects "python" leaves a Python fence alone. */
  lemma SubFenceSkipsPython(body: string, tag: Tag)
    requires NoFence(body)
    requires RejectsPython(tag)
    ensures SubFence("```python\n" + body, tag) == "```python\n" + body
  {
    var s := "```python\n" + body;
    assert s[..3] == Fence && s[3] == 'p' && s[4] == 'y';
    assert SpaceEnd(s, 3) == 3;
    assert FenceMatch(s, tag) == None;
    assert NoFence(s[1..]) by {
      forall k | 0 <= k < |s[1..]|
        ensures !FenceAt(s[1..], k)
      {
        if k >= 9 {
          assert !FenceAt(body, k - 9);
        }
      }
    }
    SubFenceNoFence(s[1..], tag);
  }

  /** Rules that all reject "python" leave a Python fence alone. */
  lemma {:induction false} FenceRulesSkipPython(rules: seq<Rule>, body: string)
    requires forall i :: 0 <= i < |rules| ==> rules[i].LanguageFence? && RejectsPython(rules[i].tag)
    requires NoFence(body)
    ensures ApplyRules(rules, "```python\n" + body) == "```python\n" + body
    decreases |rules|
  {
    if rules != [] {
      SubFenceSkipsPython(body, rules[0].tag);
      FenceRulesSkipPython(rules[1..], body);
    }
  }

  /** Running two lists of rules in a row is running their concatenation. */
  lemma {:induction false} ApplyRulesAppend(a: seq<Rule>, b: seq<Rule>, s: string)
    ensures ApplyRules(a + b, s) == ApplyRules(b, ApplyRules(a, s))
    decreases |a|
  {
    if a != [] {
      assert (a + b)[0] == a[0] && (a + b)[1..] == a[1..] + b;
      ApplyRulesAppend(a[1..], b, ApplyRule(a[0], s));
    } else {
      assert a + b == b;
    }
  }

  /** Language rules that all reject "python", followed by the Python rule,
      turn a Python fence into a bare fence. */
  lemma FenceRulesStripPythonTag(rules: seq<Rule>, body: string)
    requires |rules| > 0 && rules[|rules| - 1] == LanguageFence(PythonTag)
    requires forall i :: 0 <= i < |rules| - 1 ==> rules[i].LanguageFence? && RejectsPython(rules[i].tag)
    requires NoFence(body)
    ensures ApplyRules(rules, "```python\n" + body) == "```\n" + body
  {
    var s := "```python\n" + body;
    var fences := rules[..|rules| - 1];
    assert forall i :: 0 <= i < |fences| ==> fences[i] == rules[i];
    FenceRulesSkipPython(fences, body);
    assert rules == fences + [rules[|rules| - 1]];
    ApplyRulesAppend(fences, [rules[|rules| - 1]], s);
    PythonRuleStripsTag(body);
  }

  /** The Python rule turns "```python\n" into a bare fence and goes on after it. */
  lemma PythonFenceStripped(body: string)
    ensures SubFence("```python\n" + body, PythonTag) == BareFence + SubFence(body, PythonTag)
  {
    PythonTagMatches();
    PythonOpening(body);
    SubFenceStripsTag([], "python", body, PythonTag);
  }

  lemma PythonTagMatches()
    ensures TagAt("python", 0, PythonTag)
  {
  }

  lemma PythonOpening(body: string)
    ensures Fence + [] + "python" + "\n" + body == "```python\n" + body
  {
  }

  /** The Python rule alone, on a Python fence followed by text without fences. */
  lemma PythonRuleStripsTag(body: string)
    requires NoFence(body)
    ensures ApplyRules([LanguageFence(PythonTag)], "```python\n" + body) == "```\n" + body
  {
    var s := "```python\n" + body;
    assert SubFence(s, PythonTag) == BareFence + body by {
      PythonFenceStripped(body);
      SubFenceNoFence(body, PythonTag);
    }
  }

  /** Through the whole table: a reply that opens a Python code block loses
      the language tag and nothing else, because the anchored rules do not
      apply, no earlier rule matches the fence and the Python rule comes last. */
  lemma FormatReplyStripsPythonTag(body: string, markdownToSlack: string -> string)
    requires NoFence(body)
    ensures FormatReply("```python\n" + body, false, markdownToSlack) == "```\n" + body
  {
    var s := "```python\n" + body;
    PythonFenceNotAnchored(body);
    ApplyRulesTable(s);
    NoRuleBeforePythonMatchesIt();
    LanguageRulesBeforePython(Rules);
    FenceRulesStripPythonTag(Rules[2..], body);
  }

  /** Neither anchored rule touches text that starts with a fence. */
  lemma PythonFenceNotAnchored(body: string)
    ensures StripMention(StripLeadingNewlines("```python\n" + body)) == "```python\n" + body
  {
    var s := "```python\n" + body;
    assert s[0] == '`';
    assert !StartsWithMentionPrefix(s) by {
      assert |s| >= 3 ==> s[..3][0] == '`';
    }
  }

  /** The number of occurrences of `c` in `s`. */
  function Count(s: string, c: char): nat {
    if s == [] then 0 else (if s[0] == c then 1 else 0) + Count(s[1..], c)
  }

  lemma {:induction false} CountAppend(a: string, b: string, c: char)
    ensures Count(a + b, c) == Count(a, c) + Count(b, c)
    decreases |a|
  {
    if a == [] {
      assert a + b == b;
    } else {
      assert (a + b)[0] == a[0];
      assert (a + b)[1..] == a[1..] + b;
      CountAppend(a[1..], b, c);
    }
  }

  lemma {:induction false} CountAbsent(s: string, c: char)
    requires c !in s
    ensures Count(s, c) == 0
    decreases |s|
  {
    if s != [] {
      CountAbsent(s[1..], c);
    }
  }

  /** What a fence match covers: the fence, then whitespace and the
      language name and the newline, none of which is a backquote. */
  lemma FenceMatchShape(s: string, tag: Tag, n: nat)
    requires FenceMatch(s, tag) == Some(n)
    ensures s == Fence + s[3..n] + s[n..]
    ensures '`' !in s[3..n]
  {
    var j := SpaceEnd(s, 3);
    assert n == j + |tag| + 1;
    forall k | 3 <= k < n
      ensures s[k] != '`'
    {
      if j <= k < j + |tag| {
        assert s[j + (k - j)] in tag[k - j];
        TagCharIsNotSpace(tag, k - j, s[k]);
      }
    }
    assert s[..3] == Fence;
  }

  /** Replacing a fence match by the bare fence keeps the backquote count. */
  lemma FenceMatchKeepsBackquotes(s: string, tag: Tag, n: nat, r: string)
    requires FenceMatch(s, tag) == Some(n)
    requires Count(r, '`') == Count(s[n..], '`')
    ensures Count(BareFence + r, '`') == Count(s, '`')
  {
    FenceMatchShape(s, tag, n);
    CountAppend(Fence + s[3..n], s[n..], '`');
    CountAppend(Fence, s[3..n], '`');
    CountAbsent(s[3..n], '`');
    CountAppend(BareFence, r, '`');
  }

  /** A fence rule never removes or adds a backquote: only the whitespace and
      the language name between the fence and the newline go away. */
  lemma {:induction false} SubFenceKeepsBackquotes(s: string, tag: Tag)
    ensures Count(SubFence(s, tag), '`') == Count(s, '`')
    decreases |s|
  {
    if s != [] {
      match FenceMatch(s, tag)
      case Some(n) =>
        SubFenceKeepsBackquotes(s[n..], tag);
        FenceMatchKeepsBackquotes(s, tag, n, SubFence(s[n..], tag));
      case None =>
        SubFenceKeepsBackquotes(s[1..], tag);
        assert s == [s[0]] + s[1..];
        CountAppend([s[0]], s[1..], '`');
        CountAppend([s[0]], SubFence(s[1..], tag), '`');
    }
  }

  lemma {:induction false} FenceRulesKeepBackquotes(rules: seq<Rule>, s: string)
    requires FenceRulesOk(rules)
    ensures Count(ApplyRules(rules, s), '`') == Count(s, '`')
    decreases |rules|
  {
    if rules != [] {
      SubFenceKeepsBackquotes(s, rules[0].tag);
      FenceRulesKeepBackquotes(rules[1..], SubFence(s, rules[0].tag));
    }
  }

  /** Unless the reply starts (after its leading newlines) with a mention
      prefix, formatting without markdown translation keeps every backquote:
      code fences are never removed, only their language tags. */
  lemma FormatReplyKeepsBackquotes(s: string, markdownToSlack: string -> string)
    requires !StartsWithMentionPrefix(StripLeadingNewlines(s))
    ensures Count(FormatReply(s, false, markdownToSlack), '`') == Count(s, '`')
  {
    var t := StripLeadingNewlines(s);
    assert FormatReply(s, false, markdownToSlack) == ApplyRules(Rules[2..], t) by {
      ApplyRulesTable(s);
    }
    RulesShape();
    FenceRulesKeepBackquotes(Rules[2..], t);
    LeadingNewlinesKeepBackquotes(s);
  }

  lemma {:induction false} LeadingNewlinesKeepBackquotes(s: string)
    ensures Count(StripLeadingNewlines(s), '`') == Count(s, '`')
    decreases |s|
  {
    if s != [] && s[0] == '\n' {
      LeadingNewlinesKeepBackquotes(s[1..]);
    }
  }

  /** The lazy `.*?` stops at the first `>` when no newline comes before it
      and a colon follows it. */
  lemma MentionCloseAt(s: string, c: nat)
    requires 3 <= c < |s| && ClosesAt(s, c)
    requires forall k :: 3 <= k < c ==> s[k] != '\n' && s[k] != '>'
    ensures MentionClose(s, 3) == Some(c)
  {
  }

  /** A leading `<@U...>` mention, with an optional whitespace character
      before its colon, is removed together with one whitespace character
      after the colon, provided the user id holds no `>` and no newline. */
  lemma StripMentionRemovesMention(id: string, sep: string, rest: string)
    requires '>' !in id && '\n' !in id
    requires |sep| <= 1 && (sep != [] ==> IsSpace(sep[0]))
    ensures StripMention("<@U" + id + ">" + sep + ":" + rest)
         == if rest != [] && IsSpace(rest[0]) then rest[1..] else rest
  {
    var s := "<@U" + id + ">" + sep + ":" + rest;
    var c := 3 + |id|;
    var colon := c + 1 + |sep|;
    assert s[..3] == "<@U";
    assert s[c] == '>' && s[colon] == ':';
    assert s[colon + 1..] == rest;
    assert ColonAt(s, c + 1) == Some(OptionalSpace(s, colon + 1));
    forall k | 3 <= k < c
      ensures s[k] != '\n' && s[k] != '>'
    {
      assert s[k] == id[k - 3];
    }
    MentionCloseAt(s, c);
  }
}
