/**
 * The code-block handlers that turn mdast `code` nodes into hast: the static
 * build's `code` handler (`scripts/mdast/code.js`) and the Astro site's
 * shell handler (`src/remark/code.ts`). Shell blocks become a terminal
 * window whose prompt lines are marked up.
 */
module ShellCode {
  import opened Util
  import opened Unist
  import opened Hast

  // ---------------------------------------------------------------------------
  // Shared pieces.
  // ---------------------------------------------------------------------------

  /** The nodes of each line, concatenated; the first line that throws makes the whole throw. */
  function ConcatLines(render: string -> Result<seq<HTree>>, lines: seq<string>): (r: Result<seq<HTree>>)
    ensures r.Ok? <==> forall k :: 0 <= k < |lines| ==> render(lines[k]).Ok?
  {
    if |lines| == 0 then Ok([])
    else
      var first, rest := render(lines[0]), ConcatLines(render, lines[1..]);
      assert forall k :: 1 <= k < |lines| ==> lines[k] == lines[1..][k - 1];
      if first.Throws? then Throws(first.error)
      else if rest.Throws? then rest
      else Ok(first.value + rest.value)
  }

  /** A list of lines whose first line and rest both render is their nodes, concatenated. */
  lemma ConcatLinesCons(render: string -> Result<seq<HTree>>, lines: seq<string>)
    requires |lines| > 0 && render(lines[0]).Ok? && ConcatLines(render, lines[1..]).Ok?
    ensures ConcatLines(render, lines) == Ok(render(lines[0]).value + ConcatLines(render, lines[1..]).value)
  {
  }

  /** When every line renders to its own text and a newline, the lines render to their join and a newline. */
  lemma {:induction false} ConcatLinesText(render: string -> Result<seq<HTree>>, lines: seq<string>)
    requires |lines| > 0
    requires forall k :: 0 <= k < |lines| ==> render(lines[k]).Ok? && TextsOf(render(lines[k]).value) == lines[k] + "\n"
    ensures ConcatLines(render, lines).Ok?
    ensures TextsOf(ConcatLines(render, lines).value) == Join(lines, "\n") + "\n"
  {
    var first, rest := render(lines[0]).value, lines[1..];
    if |lines| == 1 {
      assert ConcatLines(render, rest) == Ok([]);
      assert first + [] == first;
    } else {
      assert forall k :: 0 <= k < |rest| ==> rest[k] == lines[k + 1];
      ConcatLinesText(render, rest);
      ConcatLinesCons(render, lines);
      TextsOfAppend(first, ConcatLines(render, rest).value);
    }
  }

  function Span(cls: string, children: seq<HTree>): HTree {
    El("span", map["class" := Str(cls)], children)
  }

  function Div(cls: string, children: seq<HTree>): HTree {
    El("div", map["class" := Str(cls)], children)
  }

  /** The one-space text node. */
  function Sp(): HTree {
    Txt(" ")
  }

  /** `<span class="prompt">$</span>`. */
  function Prompt(): HTree {
    Span("prompt", [Txt("$")])
  }

  /** `<span class="blink"> </span>`. */
  function Cursor(): HTree {
    Span("blink", [Sp()])
  }

  /** The entries of `Object.fromEntries(parts.map(i => i.split('=')))`: a later key wins, a missing value is `undefined`. */
  function EntriesOf(parts: seq<string>): map<string, Option<string>>
    decreases |parts|
  {
    if |parts| == 0 then map[]
    else
      var kv := Split(parts[|parts| - 1], '=');
      EntriesOf(parts[..|parts| - 1])[kv[0] := if |kv| > 1 then Some(kv[1]) else None]
  }

  /** `meta.title` of the parsed code meta string, when it is truthy. */
  function MetaTitle(meta: Option<string>): (title: Option<string>)
    ensures title.Some? ==> title.value != "" && meta.Some?
  {
    if meta.None? || meta.value == "" then None
    else
      var entries := EntriesOf(Split(meta.value, ';'));
      if "title" in entries && entries["title"].Some? && entries["title"].value != "" then entries["title"] else None
  }

  /** A `title=...` entry at the end of the meta string names the window, whatever comes before it. */
  lemma {:induction false} MetaTitleLastWins(before: Option<string>, v: string)
    requires v != "" && ';' !in v && '=' !in v
    ensures var meta := if before.Some? then before.value + ";title=" + v else "title=" + v;
      MetaTitle(Some(meta)) == Some(v)
  {
    var entry := "title=" + v;
    assert ';' !in entry;
    SplitNoSep(entry, ';');
    if before.Some? {
      var meta := before.value + ";title=" + v;
      assert meta == before.value + [';'] + entry;
      SplitAppend(before.value, ';', entry);
      var parts := Split(meta, ';');
      assert parts[|parts| - 1] == entry;
      TitleEntryLast(parts, v);
    } else {
      TitleEntryLast([entry], v);
    }
  }

  /** The last of the parts, when it is `title=v`, sets the title to `v`. */
  lemma TitleEntryLast(parts: seq<string>, v: string)
    requires |parts| > 0 && parts[|parts| - 1] == "title=" + v && '=' !in v
    ensures var entries := EntriesOf(parts);
      "title" in entries && entries["title"] == Some(v)
  {
    var entry := "title=" + v;
    assert entry == "title" + ['='] + v;
    SplitFirst("title", '=', v);
    SplitNoSep(v, '=');
  }

  /** `<div class="buttons">` with the three window buttons. */
  function Buttons(): HTree {
    Div("buttons", [Div("button close", []), Div("button minimize", []), Div("button zoom", [])])
  }

  /** The window header: the buttons, with the title and the buttons again when there is a title. */
  function Header(meta: Option<string>): (header: HTree)
    ensures HasTag(header, "div") && Prop(header, "class") == Some(Str("header"))
    ensures MetaTitle(meta).None? <==> header.children == [Buttons()]
    ensures MetaTitle(meta).Some? ==> header.children == [Buttons(), Div("title", [Txt(MetaTitle(meta).value)]), Buttons()]
  {
    match MetaTitle(meta)
    case None => Div("header", [Buttons()])
    case Some(t) => Div("header", [Buttons(), Div("title", [Txt(t)]), Buttons()])
  }

  /** The tokens after the third word of a space-split line, joined back (none: `''`). */
  function CommandFrom(ts: seq<string>, k: nat): string {
    if |ts| > k then Join(ts[k..], " ") else ""
  }

  /** A line split on spaces, read back. */
  lemma LarsLine(line: string)
    requires |Split(line, ' ')| >= 4
    ensures var ts := Split(line, ' ');
      line == ts[0] + " " + ts[1] + " " + ts[2] + " " + CommandFrom(ts, 3)
  {
    var ts := Split(line, ' ');
    JoinSplit(line, ' ');
    assert ts[1..][1..] == ts[2..] && ts[2..][1..] == ts[3..];
    assert Join(ts, " ") == ts[0] + " " + Join(ts[1..], " ");
    assert Join(ts[1..], " ") == ts[1] + " " + Join(ts[2..], " ");
    assert Join(ts[2..], " ") == ts[2] + " " + Join(ts[3..], " ");
  }

  /** The text of short node lists, position by position. */
  lemma Texts2(a: HTree, b: HTree)
    ensures TextsOf([a, b]) == TextOf(a) + TextOf(b)
  {
    assert [a, b][1..] == [b];
    assert [b][1..] == [];
    assert TextsOf([b]) == TextOf(b) + TextsOf([]);
    assert TextsOf([a, b]) == TextOf(a) + TextsOf([b]);
  }

  lemma Texts3(a: HTree, b: HTree, c: HTree)
    ensures TextsOf([a, b, c]) == TextOf(a) + TextOf(b) + TextOf(c)
  {
    assert [a, b, c][1..] == [b, c];
    Texts2(b, c);
  }

  lemma Texts4(a: HTree, b: HTree, c: HTree, d: HTree)
    ensures TextsOf([a, b, c, d]) == TextOf(a) + TextOf(b) + TextOf(c) + TextOf(d)
  {
    assert [a, b, c, d][1..] == [b, c, d];
    Texts3(b, c, d);
  }

  /** A span around one text shows that text. */
  lemma SpanText(cls: string, t: string)
    ensures TextOf(Span(cls, [Txt(t)])) == t
  {
    assert TextsOf([Txt(t)]) == TextOf(Txt(t)) + TextsOf([]);
  }

  // ---------------------------------------------------------------------------
  // scripts/mdast/code.js.
  // ---------------------------------------------------------------------------

  /** `u('text', value)` for a value that may be `undefined`. */
  function MaybeTxt(v: Option<string>): HTree {
    if v.Some? then Txt(v.value) else Node(ValuelessText, [])
  }

  /** The user and directory spans that start a coloured `lars` line. */
  function LarsHead(ts: seq<string>): seq<HTree>
    requires |ts| >= 2
  {
    [Span("user", [Txt(ts[0])]), Sp(), Span("dir", [Txt(ts[1])]), Sp()]
  }

  /**
   * `colorizePrompts` for one line: a lone `$` gets a blinking cursor, a
   * `$command` line a marked prompt, a `lars user dir [branch] prompt
   * command` line marked user, directory, branch and prompt; every line ends
   * with a newline. A `lars` line of fewer than three words throws.
   */
  function ColorizeLine(line: string): (r: Result<seq<HTree>>)
    ensures r.Throws? <==> StartsWith(line, "lars") && line != "$" && !StartsWith(line, "$") && |Split(line, ' ')| < 3
    ensures r.Ok? ==> |r.value| > 0 && r.value[|r.value| - 1] == Txt("\n")
    ensures line == "$" ==> r == Ok([Prompt(), Sp(), Cursor(), Txt("\n")])
    ensures StartsWith(line, "$") && line != "$" ==> r == Ok([Prompt(), Txt(line[1..]), Txt("\n")])
    ensures !StartsWith(line, "$") && !StartsWith(line, "lars") ==> r == Ok([Txt(line), Txt("\n")])
    ensures r.Ok? && StartsWith(line, "lars") && !StartsWith(line, "$") ==> LarsMarkup(Split(line, ' '), r.value)
  {
    if line == "$" then Ok([Prompt(), Sp(), Cursor(), Txt("\n")])
    else if StartsWith(line, "$") then Ok([Prompt(), Txt(line[1..]), Txt("\n")])
    else if StartsWith(line, "lars") then
      var ts := Split(line, ' ');
      if |ts| < 3 then Throws("TypeError: Cannot read properties of undefined (reading 'length')")
      else Ok(Lars(ts))
    else Ok([Txt(line), Txt("\n")])
  }

  /**
   * The markup of a coloured `lars` line: user and directory spans, then
   * either a branch span with the fourth word as the prompt and the command
   * from the fifth word, or, for a third word of at most one character,
   * that word as the prompt and the command from the fourth word.
   */
  predicate LarsMarkup(ts: seq<string>, out: seq<HTree>)
    requires |ts| >= 3
  {
    |out| >= 8 && out[..4] == LarsHead(ts) && out[|out| - 1] == Txt("\n")
    && (|ts[2]| > 1 ==>
          |out| == 10 && out[4] == Span("branch", [Txt(ts[2])])
          && out[6] == Span("prompt", [MaybeTxt(if |ts| > 3 then Some(ts[3]) else None)])
          && out[8] == Txt(CommandFrom(ts, 4)))
    && (|ts[2]| <= 1 ==>
          |out| == 8 && out[4] == Span("prompt", [Txt(ts[2])]) && out[6] == Txt(CommandFrom(ts, 3)))
  }

  /** The nodes of a `lars` line of at least three words. */
  function Lars(ts: seq<string>): (out: seq<HTree>)
    requires |ts| >= 3
    ensures LarsMarkup(ts, out)
  {
    var head := LarsHead(ts);
    if |ts[2]| > 1 then
      var prompt := if |ts| > 3 then Some(ts[3]) else None;
      head + [Span("branch", [Txt(ts[2])]), Sp(), Span("prompt", [MaybeTxt(prompt)]), Sp()] + [Txt(CommandFrom(ts, 4)), Txt("\n")]
    else
      head + [Span("prompt", [Txt(ts[2])]), Sp(), Txt(CommandFrom(ts, 3)), Txt("\n")]
  }

  /** Lines whose words all survive colouring: not a lone `$`, and a `lars` line with its prompt and a command. */
  predicate KeepsText(line: string) {
    line != "$"
    && (StartsWith(line, "lars") && !StartsWith(line, "$") ==>
          var ts := Split(line, ' ');
          |ts| >= 5 || (|ts| == 4 && |ts[2]| <= 1))
  }

  /** Colouring only adds markup: the text of a coloured line is the line and its newline. */
  lemma ColorizeLineKeepsText(line: string)
    requires KeepsText(line)
    ensures ColorizeLine(line).Ok?
    ensures TextsOf(ColorizeLine(line).value) == line + "\n"
  {
    if StartsWith(line, "$") {
      DollarLineText(line);
    } else if StartsWith(line, "lars") {
      var ts := Split(line, ' ');
      LarsLine(line);
      if |ts[2]| > 1 {
        LarsBranchText(line, ts);
      } else {
        LarsPromptText(line, ts);
      }
    } else {
      Texts2(Txt(line), Txt("\n"));
    }
  }

  lemma DollarLineText(line: string)
    requires StartsWith(line, "$") && line != "$"
    ensures ColorizeLine(line) == Ok([Prompt(), Txt(line[1..]), Txt("\n")])
    ensures TextsOf(ColorizeLine(line).value) == line + "\n"
  {
    Texts3(Prompt(), Txt(line[1..]), Txt("\n"));
    SpanText("prompt", "$");
    assert line == line[..1] + line[1..];
  }

  /** The text of the four nodes that start a coloured `lars` line. */
  lemma LarsHeadText(ts: seq<string>)
    requires |ts| >= 2
    ensures TextsOf([Span("user", [Txt(ts[0])]), Sp(), Span("dir", [Txt(ts[1])]), Sp()]) == ts[0] + " " + ts[1] + " "
  {
    Texts4(Span("user", [Txt(ts[0])]), Sp(), Span("dir", [Txt(ts[1])]), Sp());
    SpanText("user", ts[0]);
    SpanText("dir", ts[1]);
  }

  lemma LarsBranchText(line: string, ts: seq<string>)
    requires StartsWith(line, "lars") && !StartsWith(line, "$") && ts == Split(line, ' ')
    requires |ts| >= 5 && |ts[2]| > 1
    requires line == ts[0] + " " + ts[1] + " " + ts[2] + " " + CommandFrom(ts, 3)
    ensures ColorizeLine(line).Ok? && TextsOf(ColorizeLine(line).value) == line + "\n"
  {
    assert ColorizeLine(line) == Ok(Lars(ts));
    BranchNodesText(ts);
    CommandFromCons(ts, 3);
    Regroup(ts[0] + " " + ts[1] + " " + ts[2] + " ", ts[3], " ", CommandFrom(ts, 4));
  }

  /** Concatenation regrouped to the left. */
  lemma Regroup(p: string, a: string, b: string, c: string)
    ensures p + (a + b + c) == p + a + b + c
  {
  }

  /** The text of a `lars` line rendered with a branch. */
  lemma BranchNodesText(ts: seq<string>)
    requires |ts| >= 5 && |ts[2]| > 1
    ensures TextsOf(Lars(ts)) == ts[0] + " " + ts[1] + " " + ts[2] + " " + ts[3] + " " + CommandFrom(ts, 4) + "\n"
  {
    var mid := [Span("branch", [Txt(ts[2])]), Sp(), Span("prompt", [MaybeTxt(Some(ts[3]))]), Sp()];
    var tail := [Txt(CommandFrom(ts, 4)), Txt("\n")];
    assert Lars(ts) == LarsHead(ts) + mid + tail;
    BranchTailText(ts, mid, tail);
  }

  lemma BranchTailText(ts: seq<string>, mid: seq<HTree>, tail: seq<HTree>)
    requires |ts| >= 5
    requires mid == [Span("branch", [Txt(ts[2])]), Sp(), Span("prompt", [MaybeTxt(Some(ts[3]))]), Sp()]
    requires tail == [Txt(CommandFrom(ts, 4)), Txt("\n")]
    ensures TextsOf(LarsHead(ts) + mid + tail) == ts[0] + " " + ts[1] + " " + ts[2] + " " + ts[3] + " " + CommandFrom(ts, 4) + "\n"
  {
    LarsHeadText(ts);
    Texts4(mid[0], mid[1], mid[2], mid[3]);
    SpanText("branch", ts[2]);
    SpanText("prompt", ts[3]);
    Texts2(tail[0], tail[1]);
    TextsOfAppend(LarsHead(ts), mid);
    TextsOfAppend(LarsHead(ts) + mid, tail);
  }

  /** The command from word `k` on is word `k` and the command after it. */
  lemma CommandFromCons(ts: seq<string>, k: nat)
    requires |ts| > k + 1
    ensures CommandFrom(ts, k) == ts[k] + " " + CommandFrom(ts, k + 1)
  {
    assert ts[k..][1..] == ts[k + 1..];
  }

  lemma LarsPromptText(line: string, ts: seq<string>)
    requires StartsWith(line, "lars") && !StartsWith(line, "$") && ts == Split(line, ' ')
    requires |ts| >= 4 && |ts[2]| <= 1
    requires line == ts[0] + " " + ts[1] + " " + ts[2] + " " + CommandFrom(ts, 3)
    ensures ColorizeLine(line).Ok? && TextsOf(ColorizeLine(line).value) == line + "\n"
  {
    assert ColorizeLine(line) == Ok(Lars(ts));
    PromptNodesText(ts);
  }

  /** The text of a `lars` line rendered with a one-character prompt. */
  lemma PromptNodesText(ts: seq<string>)
    requires |ts| >= 3 && |ts[2]| <= 1
    ensures TextsOf(Lars(ts)) == ts[0] + " " + ts[1] + " " + ts[2] + " " + CommandFrom(ts, 3) + "\n"
  {
    var tail := [Span("prompt", [Txt(ts[2])]), Sp(), Txt(CommandFrom(ts, 3)), Txt("\n")];
    assert Lars(ts) == LarsHead(ts) + tail;
    PromptTailText(ts, tail);
  }

  lemma PromptTailText(ts: seq<string>, tail: seq<HTree>)
    requires |ts| >= 3 && tail == [Span("prompt", [Txt(ts[2])]), Sp(), Txt(CommandFrom(ts, 3)), Txt("\n")]
    ensures TextsOf(LarsHead(ts) + tail) == ts[0] + " " + ts[1] + " " + ts[2] + " " + CommandFrom(ts, 3) + "\n"
  {
    LarsHeadText(ts);
    Texts4(tail[0], tail[1], tail[2], tail[3]);
    SpanText("prompt", ts[2]);
    TextsOfAppend(LarsHead(ts), tail);
  }

  /** The coloured lines, concatenated; the first line that throws makes the whole throw. */
  function ColorizeLines(lines: seq<string>): (r: Result<seq<HTree>>)
    ensures r.Ok? <==> forall k :: 0 <= k < |lines| ==> ColorizeLine(lines[k]).Ok?
  {
    ConcatLines(ColorizeLine, lines)
  }

  /** `colorizePrompts(h, node, value)`: the value, line by line. */
  function ColorizePrompts(value: string): Result<seq<HTree>> {
    ColorizeLines(Split(value, '\n'))
  }

  lemma ColorizeLinesText(lines: seq<string>)
    requires |lines| > 0
    requires forall k :: 0 <= k < |lines| ==> KeepsText(lines[k])
    ensures ColorizeLines(lines).Ok?
    ensures TextsOf(ColorizeLines(lines).value) == Join(lines, "\n") + "\n"
  {
    forall k | 0 <= k < |lines|
      ensures ColorizeLine(lines[k]).Ok? && TextsOf(ColorizeLine(lines[k]).value) == lines[k] + "\n"
    {
      ColorizeLineKeepsText(lines[k]);
    }
    ConcatLinesText(ColorizeLine, lines);
  }

  /**
   * When every line keeps its words, the text of the coloured block is the
   * code itself followed by a newline.
   */
  lemma ColorizePromptsText(value: string)
    requires forall k :: 0 <= k < |Split(value, '\n')| ==> KeepsText(Split(value, '\n')[k])
    ensures ColorizePrompts(value).Ok?
    ensures TextsOf(ColorizePrompts(value).value) == value + "\n"
  {
    ColorizeLinesText(Split(value, '\n'));
    JoinSplit(value, '\n');
  }

  /** `buildShell(h, node)`: `section.terminal` holding the header and `pre > code` with the coloured lines. */
  function BuildShell(meta: Option<string>, value: string): (r: Result<HTree>)
    ensures r.Ok? <==> ColorizePrompts(value).Ok?
    ensures r.Ok? ==>
      HasTag(r.value, "section") && Prop(r.value, "class") == Some(Str("terminal"))
      && r.value.children == [Header(meta), El("pre", map[], [El("code", map[], ColorizePrompts(value).value)])]
  {
    match ColorizePrompts(value)
    case Throws(e) => Throws(e)
    case Ok(content) => Ok(El("section", map["class" := Str("terminal")], [Header(meta), El("pre", map[], [El("code", map[], content)])]))
  }

  /** `/te?xt/.test(lang)`. */
  predicate IsTextLang(lang: string) {
    Contains(lang, "txt") || Contains(lang, "text")
  }

  /** `node.value ? node.value + '\n' : ''`. */
  function WithNewline(value: string): string {
    if value == "" then "" else value + "\n"
  }

  /**
   * `code(h, node)`: shell blocks become a terminal; blocks without a
   * language or with a text language a `pre > code.no-highlight`; the others
   * a `pre > code.language-<lang>` that keeps a non-empty meta string in its
   * data.
   */
  function CodeJs(lang: Option<string>, meta: Option<string>, value: string): (r: Result<HTree>)
    ensures lang == Some("shell") ==> r == BuildShell(meta, value)
    ensures lang != Some("shell") ==> r.Ok? && HasTag(r.value, "pre") && |r.value.children| == 1 && TextsOf([r.value]) == WithNewline(value)
    ensures lang != Some("shell") && (lang.None? || lang.value == "" || IsTextLang(lang.value)) ==>
      r.value.children == [El("code", map["className" := Strs(["no-highlight"])], [Txt(WithNewline(value))])]
    ensures lang.Some? && lang.value != "shell" && lang.value != "" && !IsTextLang(lang.value) ==>
      var code := r.value.children[0];
      HasTag(code, "code") && Prop(code, "class") == Some(Str("language-" + lang.value))
      && code.data.data == (if meta.Some? && meta.value != "" then map["meta" := meta.value] else map[])
  {
    if lang == Some("shell") then BuildShell(meta, value)
    else Ok(El("pre", map[], [CodeElement(lang, meta, value)]))
  }

  /** The `code` element of a block that is not shell code. */
  function CodeElement(lang: Option<string>, meta: Option<string>, value: string): (code: HTree)
    ensures TextsOf([El("pre", map[], [code])]) == WithNewline(value)
    ensures lang.None? || lang.value == "" || IsTextLang(lang.value) ==>
      code == El("code", map["className" := Strs(["no-highlight"])], [Txt(WithNewline(value))])
    ensures lang.Some? && lang.value != "" && !IsTextLang(lang.value) ==>
      HasTag(code, "code") && Prop(code, "class") == Some(Str("language-" + lang.value))
      && code.data.data == (if meta.Some? && meta.value != "" then map["meta" := meta.value] else map[])
  {
    var text := [Txt(WithNewline(value))];
    var code :=
      if lang.None? || lang.value == "" || IsTextLang(lang.value) then El("code", map["className" := Strs(["no-highlight"])], text)
      else
        var data := if meta.Some? && meta.value != "" then map["meta" := meta.value] else map[];
        Node(Element("code", map["class" := Str("language-" + lang.value)], data), text);
    assert TextsOf([code]) == TextOf(code) + TextsOf([]);
    assert TextsOf(code.children) == TextOf(text[0]) + TextsOf([]);
    var pre := El("pre", map[], [code]);
    assert TextsOf([pre]) == TextOf(pre) + TextsOf([]);
    code
  }

  // ---------------------------------------------------------------------------
  // src/remark/code.ts.
  // ---------------------------------------------------------------------------

  /** `<br />`. */
  function Br(): HTree {
    El("br", map[], [])
  }

  /** The branch-and-prompt part of a `lars` line as `code.ts` writes it. */
  function BranchAndPromptTs(ts: seq<string>): seq<HTree>
    requires |ts| >= 3
  {
    if |ts[2]| == 1 then [Txt(ts[2])]
    else [Span("branch", [Txt(ts[2])]), Sp()] + OptTxt(if |ts| > 3 then Some(ts[3]) else None)
  }

  /** The `$`, `$command` and plain lines of `code.ts`: prompt, cursor and text, each line closed by a `<br />`. */
  predicate NonLarsMarkupTs(line: string, r: Result<seq<HTree>>) {
    && (line == "$" ==> r == Ok([Prompt(), Sp(), Cursor(), Br()]))
    && (StartsWith(line, "$") && line != "$" ==> r == Ok([Prompt(), Txt(line[1..]), Br()]))
    && (!StartsWith(line, "$") && !StartsWith(line, "lars") ==> r == Ok([Txt(line), Br()]))
  }

  /**
   * A `lars` line of `code.ts`: user and directory (the directory span holds
   * the space), then a bare one-character prompt or a branch span and the
   * fourth word, then space, cursor, space and the command; no `<br />`.
   */
  predicate LarsMarkupTs(ts: seq<string>, out: seq<HTree>)
    requires |ts| >= 3
  {
    && |out| >= 8
    && out[..3] == [Span("user", [Txt(ts[0])]), Sp(), Span("dir", [Txt(ts[1]), Sp()])]
    && (|ts[2]| == 1 ==> |out| == 8 && out[3] == Txt(ts[2]))
    && (|ts[2]| != 1 ==> out[3] == Span("branch", [Txt(ts[2])]) && out[4] == Sp()
                         && (|ts| > 3 <==> |out| == 10) && (|ts| > 3 ==> out[5] == Txt(ts[3])))
    && out[|out| - 4..|out| - 1] == [Sp(), Cursor(), Sp()]
    && Br() !in out
  }

  /** The markup `code.ts` gives a `lars` line, for a given command. */
  function LarsTs(ts: seq<string>, command: string): seq<HTree>
    requires |ts| >= 3
  {
    [Span("user", [Txt(ts[0])]), Sp(), Span("dir", [Txt(ts[1]), Sp()])]
    + BranchAndPromptTs(ts) + [Sp(), Cursor(), Sp(), Txt(command)]
  }

  lemma LarsTsShape(ts: seq<string>, command: string)
    requires |ts| >= 3
    ensures LarsMarkupTs(ts, LarsTs(ts, command))
    ensures LarsTs(ts, command)[|LarsTs(ts, command)| - 1] == Txt(command)
  {
  }

  /**
   * `colorize` for one line, as written: a one-character third word is the
   * prompt, but the fourth word is then neither shown nor moved into the
   * command.
   */
  function ColorizeLineTs(line: string): (r: Result<seq<HTree>>)
    ensures r.Throws? <==> StartsWith(line, "lars") && line != "$" && !StartsWith(line, "$") && |Split(line, ' ')| < 3
    ensures NonLarsMarkupTs(line, r)
    ensures r.Ok? && StartsWith(line, "lars") && !StartsWith(line, "$") ==>
      var ts := Split(line, ' ');
      LarsMarkupTs(ts, r.value) && r.value[|r.value| - 1] == Txt(CommandFrom(ts, 4))
  {
    if line == "$" then Ok([Prompt(), Sp(), Cursor(), Br()])
    else if StartsWith(line, "$") then Ok([Prompt(), Txt(line[1..]), Br()])
    else if StartsWith(line, "lars") then
      var ts := Split(line, ' ');
      if |ts| < 3 then Throws("TypeError: Cannot read properties of undefined (reading 'length')")
      else
        LarsTsShape(ts, CommandFrom(ts, 4));
        Ok(LarsTs(ts, CommandFrom(ts, 4)))
    else Ok([Txt(line), Br()])
  }

  /** The text of a `lars` line with a one-character prompt, as written: the fourth word is missing. */
  lemma ColorizeLineTsText(line: string)
    requires StartsWith(line, "lars") && |Split(line, ' ')| >= 3 && |Split(line, ' ')[2]| == 1
    ensures var ts := Split(line, ' ');
      ColorizeLineTs(line).Ok?
      && TextsOf(ColorizeLineTs(line).value) == ts[0] + " " + ts[1] + " " + ts[2] + "   " + CommandFrom(ts, 4)
  {
    assert !StartsWith(line, "$") by {
      assert line[0] == 'l';
    }
    var ts := Split(line, ' ');
    LarsTsText(ts, CommandFrom(ts, 4));
  }

  /** The text of the `code.ts` markup of a `lars` line whose prompt is one character, for a given command. */
  lemma LarsTsText(ts: seq<string>, command: string)
    requires |ts| >= 3 && |ts[2]| == 1
    ensures TextsOf(LarsTs(ts, command)) == ts[0] + " " + ts[1] + " " + ts[2] + "   " + command
  {
    var head := [Span("user", [Txt(ts[0])]), Sp(), Span("dir", [Txt(ts[1]), Sp()])];
    var tail := [Sp(), Cursor(), Sp(), Txt(command)];
    Texts3(head[0], head[1], head[2]);
    SpanText("user", ts[0]);
    Texts2(Txt(ts[1]), Sp());
    Texts4(tail[0], tail[1], tail[2], tail[3]);
    assert TextOf(Cursor()) == " " by {
      SpanText("blink", " ");
    }
    assert BranchAndPromptTs(ts) == [Txt(ts[2])];
    assert TextsOf([Txt(ts[2])]) == ts[2] + TextsOf([]);
    TextsOfAppend(head, [Txt(ts[2])]);
    TextsOfAppend(head + [Txt(ts[2])], tail);
  }

  /** Five words joined by single spaces, grouped from the right. */
  lemma JoinFive(a: string, b: string, c: string, d: string, e: string)
    ensures a + " " + b + " " + c + " " + d + " " + e == a + [' '] + (b + [' '] + (c + [' '] + (d + [' '] + e)))
  {
  }
  lemma {:induction false} SplitFive(a: string, b: string, c: string, d: string, e: string)
    requires ' ' !in a && ' ' !in b && ' ' !in c && ' ' !in d && ' ' !in e
    ensures Split(a + " " + b + " " + c + " " + d + " " + e, ' ') == [a, b, c, d, e]
  {
    var de := d + [' '] + e;
    var cde := c + [' '] + de;
    var bcde := b + [' '] + cde;
    var all := a + [' '] + bcde;
    SplitNoSep(e, ' ');
    SplitFirst(d, ' ', e);
    assert Split(de, ' ') == [d, e];
    SplitFirst(c, ' ', de);
    assert Split(cde, ' ') == [c, d, e];
    SplitFirst(b, ' ', cde);
    assert Split(bcde, ' ') == [b, c, d, e];
    SplitFirst(a, ' ', bcde);
    assert Split(all, ' ') == [a, b, c, d, e];
    JoinFive(a, b, c, d, e);
  }

  /** The words of the sample line `lars ~ $ ls -la`. */
  lemma SampleWords()
    ensures Split("lars ~ $ ls -la", ' ') == ["lars", "~", "$", "ls", "-la"]
  {
    SplitFive("lars", "~", "$", "ls", "-la");
    assert "lars" + " " + "~" + " " + "$" + " " + "ls" + " " + "-la" == "lars ~ $ ls -la";
  }

  lemma SampleCommands(ts: seq<string>)
    requires ts == ["lars", "~", "$", "ls", "-la"]
    ensures CommandFrom(ts, 3) == "ls -la" && CommandFrom(ts, 4) == "-la"
  {
    assert ts[4..] == ["-la"];
    assert ts[3..] == ["ls"] + ts[4..];
  }

  lemma SampleTexts()
    ensures "lars" + " " + "~" + " " + "$" + "   " + "-la" == "lars ~ $   -la"
    ensures "lars" + " " + "~" + " " + "$" + "   " + "ls -la" == "lars ~ $   ls -la"
  {
  }

  /** `lars ~ $ ls -la`: the command shows as `-la`, the `ls` is lost. */
  lemma ColorizeLineTsDropsWord(line: string)
    requires line == "lars ~ $ ls -la"
    ensures ColorizeLineTs(line).Ok?
    ensures TextsOf(ColorizeLineTs(line).value) == "lars ~ $   -la"
  {
    SampleWords();
    var ts := Split(line, ' ');
    assert |ts| == 5 && ts[2] == "$";
    assert line[..4] == "lars";
    ColorizeLineTsText(line);
    SampleCommands(ts);
    SampleTexts();
  }

  /** The branch-and-prompt part with the fourth word moved into the command, as `code.js` does. */
  function ColorizeLineTsFixed(line: string): (r: Result<seq<HTree>>)
    ensures r.Throws? <==> StartsWith(line, "lars") && line != "$" && !StartsWith(line, "$") && |Split(line, ' ')| < 3
    ensures NonLarsMarkupTs(line, r)
    ensures r.Ok? && StartsWith(line, "lars") && !StartsWith(line, "$") ==>
      var ts := Split(line, ' ');
      LarsMarkupTs(ts, r.value)
      && r.value[|r.value| - 1] == Txt(if |ts[2]| == 1 then CommandFrom(ts, 3) else CommandFrom(ts, 4))
  {
    if line == "$" then Ok([Prompt(), Sp(), Cursor(), Br()])
    else if StartsWith(line, "$") then Ok([Prompt(), Txt(line[1..]), Br()])
    else if StartsWith(line, "lars") then
      var ts := Split(line, ' ');
      if |ts| < 3 then Throws("TypeError: Cannot read properties of undefined (reading 'length')")
      else
        var command := if |ts[2]| == 1 then CommandFrom(ts, 3) else CommandFrom(ts, 4);
        LarsTsShape(ts, command);
        Ok(LarsTs(ts, command))
    else Ok([Txt(line), Br()])
  }

  /**
   * With the fix, a `lars` line with a one-character prompt shows every word
   * of the line in order: the text is the line with the cursor's two spaces
   * after the prompt.
   */
  lemma ColorizeLineTsFixedText(line: string)
    requires StartsWith(line, "lars") && |Split(line, ' ')| >= 4 && |Split(line, ' ')[2]| == 1
    ensures var ts := Split(line, ' ');
      var prefix := ts[0] + " " + ts[1] + " " + ts[2];
      ColorizeLineTsFixed(line).Ok?
      && line == prefix + " " + CommandFrom(ts, 3)
      && TextsOf(ColorizeLineTsFixed(line).value) == prefix + "   " + CommandFrom(ts, 3)
  {
    assert !StartsWith(line, "$") by {
      assert line[0] == 'l';
    }
    LarsLine(line);
    var ts := Split(line, ' ');
    LarsTsText(ts, CommandFrom(ts, 3));
  }

  /** The corrected line shows `ls -la`. */
  lemma ColorizeLineTsFixedKeepsWord(line: string)
    requires line == "lars ~ $ ls -la"
    ensures ColorizeLineTsFixed(line).Ok?
    ensures TextsOf(ColorizeLineTsFixed(line).value) == "lars ~ $   ls -la"
  {
    SampleWords();
    var ts := Split(line, ' ');
    assert |ts| == 5 && ts[2] == "$";
    assert line[..4] == "lars";
    ColorizeLineTsFixedText(line);
    SampleCommands(ts);
    SampleTexts();
  }

  /** The lines of `colorize`, each rendered as written, flattened; the first line that throws makes the whole throw. */
  function ColorizeLinesTs(lines: seq<string>): (r: Result<seq<HTree>>)
    ensures r.Ok? <==> forall k :: 0 <= k < |lines| ==> ColorizeLineTs(lines[k]).Ok?
  {
    ConcatLines(ColorizeLineTs, lines)
  }

  /**
   * `code(state, node)`: only shell blocks are handled (`None` leaves the
   * node to the default handler); the terminal's `pre` is focusable and its
   * `code` is `language-shell`.
   */
  function CodeTs(lang: Option<string>, meta: Option<string>, value: string): (r: Option<Result<HTree>>)
    ensures r.None? <==> lang != Some("shell")
    ensures r.Some? ==> (r.value.Ok? <==> ColorizeLinesTs(Split(value, '\n')).Ok?)
    ensures r.Some? && r.value.Ok? ==>
      var section := r.value.value;
      HasTag(section, "section") && Prop(section, "class") == Some(Str("terminal"))
      && |section.children| == 2 && section.children[0] == Header(meta)
      && var pre := section.children[1];
         HasTag(pre, "pre") && Prop(pre, "tabindex") == Some(Str("0"))
         && pre.children == [El("code", map["class" := Str("language-shell")], ColorizeLinesTs(Split(value, '\n')).value)]
  {
    if lang != Some("shell") then None
    else
      match ColorizeLinesTs(Split(value, '\n'))
      case Throws(e) => Some(Throws(e))
      case Ok(content) =>
        var pre := El("pre", map["tabindex" := Str("0")], [El("code", map["class" := Str("language-shell")], content)]);
        Some(Ok(El("section", map["class" := Str("terminal")], [Header(meta), pre])))
  }
}
