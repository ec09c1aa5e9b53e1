/** The offline Markdown converter of the file viewer (`simple_markdown_to_html` in
    src/file_sharing.rs). It walks the lines of the text once, with a flag for "inside
    a fenced code block", and appends HTML for each line or run of list lines.
    `process_inline_formatting`, which rewrites inline code, emphasis and links with
    regular expressions, is a parameter and nothing is assumed about it. */
module Markdown {
  import opened Strings
  import Html

  /** `process_inline_formatting`. */
  type Inline = string -> string

  // ---------------------------------------------------------------- lines

  /** Drops one trailing carriage return. */
  function StripCr(l: string): string
  {
    if |l| > 0 && l[|l| - 1] == '\r' then l[..|l| - 1] else l
  }

  /** `str::lines`: pieces between line feeds, each without a `\r` that stood before its
      line feed; a final line feed does not start another line. */
  function Lines(s: string): (ls: seq<string>)
    ensures forall k | 0 <= k < |ls| :: '\n' !in ls[k]
    decreases |s|
  {
    if s == [] then []
    else if '\n' !in s then [s]
    else
      var k := FirstIndex(s, '\n');
      [StripCr(s[..k])] + Lines(s[k + 1..])
  }

  /** Every line followed by a line feed. */
  function Unlines(ls: seq<string>): string
  {
    if ls == [] then "" else ls[0] + "\n" + Unlines(ls[1..])
  }

  /** Splitting into lines undoes joining them, for lines that hold no line feed and do
      not end in a carriage return. */
  lemma {:induction false} LinesOfUnlines(ls: seq<string>)
    requires forall k | 0 <= k < |ls| :: '\n' !in ls[k] && (ls[k] == [] || ls[k][|ls[k]| - 1] != '\r')
    ensures Lines(Unlines(ls)) == ls
  {
    if ls != [] {
      var l, rest := ls[0], Unlines(ls[1..]);
      var s := l + "\n" + rest;
      assert Unlines(ls) == s;
      assert s[|l|] == '\n' && s[..|l|] == l && s[|l| + 1..] == rest;
      FirstNewline(l, rest);
      assert StripCr(l) == l;
      LinesOfUnlines(ls[1..]);
      assert Lines(s) == [l] + Lines(rest);
    }
  }

  lemma FirstNewline(l: string, rest: string)
    requires '\n' !in l
    ensures FirstIndex(l + "\n" + rest, '\n') == |l|
  {
    var s := l + "\n" + rest;
    assert s[|l|] == '\n';
    assert s[..|l|] == l;
  }

  // ---------------------------------------------------------------- single lines

  predicate IsFence(line: string)
  {
    StartsWith(line, "```")
  }

  predicate IsQuote(line: string)
  {
    StartsWith(line, "> ")
  }

  predicate IsBullet(line: string)
  {
    StartsWith(line, "- ") || StartsWith(line, "* ")
  }

  /** A line whose first character is an ASCII digit and which contains `. `. */
  predicate IsOrdered(line: string)
  {
    |line| > 0 && IsDigit(line[0]) && Contains(line, ". ")
  }

  predicate IsRule(line: string)
  {
    line == "---" || line == "***" || line == "___"
  }

  /** The heading level of a line, tested from `# ` to `###### `; 0 for none. */
  function HeadingLevel(line: string): (n: nat)
    ensures n <= 6
    ensures n > 0 ==> n + 1 <= |line|
  {
    if StartsWith(line, "# ") then 1
    else if StartsWith(line, "## ") then 2
    else if StartsWith(line, "### ") then 3
    else if StartsWith(line, "#### ") then 4
    else if StartsWith(line, "##### ") then 5
    else if StartsWith(line, "###### ") then 6
    else 0
  }

  function Digit(n: nat): char
    requires n <= 9
  {
    ('0' as int + n) as char
  }

  function Heading(n: nat, text: string): string
    requires 1 <= n <= 6
  {
    "<h" + [Digit(n)] + ">" + Html.EscapeHtml(text) + "</h" + [Digit(n)] + ">\n"
  }

  /** The opening tag of a fenced code block, naming its language when there is one. */
  function OpenCode(lang: string): string
  {
    if lang == [] then "<pre><code>"
    else "<pre><code class=\"language-" + Html.EscapeHtml(lang) + "\">"
  }

  /** The output for a (right-trimmed) line outside code blocks that does not start a list. */
  function SingleLine(line: string, inline: Inline): string
  {
    if HeadingLevel(line) > 0 then Heading(HeadingLevel(line), line[HeadingLevel(line) + 1..])
    else if IsQuote(line) then "<blockquote><p>" + inline(line[2..]) + "</p></blockquote>\n"
    else if IsRule(line) then "<hr>\n"
    else if line == [] then ""
    else "<p>" + inline(line) + "</p>\n"
  }

  // ---------------------------------------------------------------- list runs

  /** A raw line that continues a bullet run: a bullet once leading whitespace is gone. */
  predicate BulletItem(raw: string)
  {
    IsBullet(TrimStart(raw))
  }

  /** The end of the run of bullet lines starting at `i`. */
  function BulletRunEnd(lines: seq<string>, i: nat): (e: nat)
    requires i <= |lines|
    ensures i <= e <= |lines|
    ensures forall k | i <= k < e :: BulletItem(lines[k])
    ensures e < |lines| ==> !BulletItem(lines[e])
    decreases |lines| - i
  {
    if i < |lines| && BulletItem(lines[i]) then BulletRunEnd(lines, i + 1) else i
  }

  /** The list item for a line of a bullet run. */
  function BulletLi(raw: string, inline: Inline): string
    requires BulletItem(raw)
  {
    "<li>" + inline(TrimStart(raw)[2..]) + "</li>\n"
  }

  /** The items of the bullet lines `i` to `j`. */
  function BulletItems(lines: seq<string>, i: nat, j: nat, inline: Inline): string
    requires i <= j <= |lines|
    requires forall k | i <= k < j :: BulletItem(lines[k])
    decreases j - i
  {
    if j == i then "" else BulletItems(lines, i, j - 1, inline) + BulletLi(lines[j - 1], inline)
  }

  /** The end of the run of ordered-list lines starting at `i`, tested on the raw lines. */
  function OrderedRunEnd(lines: seq<string>, i: nat): (e: nat)
    requires i <= |lines|
    ensures i <= e <= |lines|
    ensures forall k | i <= k < e :: IsOrdered(lines[k])
    ensures e < |lines| ==> !IsOrdered(lines[e])
    decreases |lines| - i
  {
    if i < |lines| && IsOrdered(lines[i]) then OrderedRunEnd(lines, i + 1) else i
  }

  /** The list item for an ordered-list line: what follows its first `. `. */
  function OrderedLi(raw: string, inline: Inline): string
    requires IsOrdered(raw)
  {
    "<li>" + inline(raw[Find(raw, ". ") + 2..]) + "</li>\n"
  }

  /** The items of the ordered-list lines `i` to `j`. */
  function OrderedItems(lines: seq<string>, i: nat, j: nat, inline: Inline): string
    requires i <= j <= |lines|
    requires forall k | i <= k < j :: IsOrdered(lines[k])
    decreases j - i
  {
    if j == i then "" else OrderedItems(lines, i, j - 1, inline) + OrderedLi(lines[j - 1], inline)
  }

  /** A right-trimmed bullet line continues a bullet run, so a run that starts at it
      holds at least that line. */
  lemma BulletTrimEnd(l: string)
    requires IsBullet(TrimEnd(l))
    ensures BulletItem(l)
  {
    var t := TrimEnd(l);
    TrimEndShape(l);
    assert l[0] == t[0];
    assert !IsWhitespace(l[0]);
    assert TrimStart(l) == l;
    assert l[..2] == t[..2];
  }

  /** Likewise for ordered-list lines. */
  lemma OrderedTrimEnd(l: string)
    requires IsOrdered(TrimEnd(l))
    ensures IsOrdered(l)
  {
    var t := TrimEnd(l);
    TrimEndShape(l);
    var w :| 0 <= w <= |t| && OccursAt(t, ". ", w);
    assert l[w..w + 2] == t[w..w + 2];
    assert OccursAt(l, ". ", w);
  }

  // ---------------------------------------------------------------- the document

  /** The HTML for the lines from `i` on, `inCode` telling whether a fenced block is
      open: a fence opens or closes a block, and a line inside a block is copied
      escaped. */
  function Render(lines: seq<string>, i: nat, inCode: bool, inline: Inline): string
    requires i <= |lines|
    decreases |lines| - i, 1
  {
    if i == |lines| then ""
    else
      var line := TrimEnd(lines[i]);
      if IsFence(line) then
        (if inCode then "</code></pre>\n" else OpenCode(Trim(line[3..]))) + Render(lines, i + 1, !inCode, inline)
      else if inCode then
        Html.EscapeHtml(line) + "\n" + Render(lines, i + 1, true, inline)
      else
        RenderOutside(lines, i, inline)
  }

  /** Line `i` outside code blocks: a bullet or ordered line consumes its whole run,
      and any other line is converted on its own. */
  function RenderOutside(lines: seq<string>, i: nat, inline: Inline): string
    requires i < |lines|
    decreases |lines| - i, 0
  {
    var line := TrimEnd(lines[i]);
    if HeadingLevel(line) == 0 && !IsQuote(line) && IsBullet(line) then
      BulletTrimEnd(lines[i]);
      var e := BulletRunEnd(lines, i);
      "<ul>\n" + BulletItems(lines, i, e, inline) + "</ul>\n" + Render(lines, e, false, inline)
    else if HeadingLevel(line) == 0 && !IsQuote(line) && IsOrdered(line) then
      OrderedTrimEnd(lines[i]);
      var e := OrderedRunEnd(lines, i);
      "<ol>\n" + OrderedItems(lines, i, e, inline) + "</ol>\n" + Render(lines, e, false, inline)
    else
      SingleLine(line, inline) + Render(lines, i + 1, false, inline)
  }

  // Each kind of line as one step of `Render`.

  lemma RenderFence(lines: seq<string>, i: nat, inCode: bool, inline: Inline)
    requires i < |lines| && IsFence(TrimEnd(lines[i]))
    ensures Render(lines, i, inCode, inline)
         == (if inCode then "</code></pre>\n" else OpenCode(Trim(TrimEnd(lines[i])[3..])))
            + Render(lines, i + 1, !inCode, inline)
  {
  }

  lemma RenderCode(lines: seq<string>, i: nat, inline: Inline)
    requires i < |lines| && !IsFence(TrimEnd(lines[i]))
    ensures Render(lines, i, true, inline)
         == Html.EscapeHtml(TrimEnd(lines[i])) + "\n" + Render(lines, i + 1, true, inline)
  {
  }

  lemma RenderSingle(lines: seq<string>, i: nat, inline: Inline)
    requires i < |lines| && !IsFence(TrimEnd(lines[i]))
    requires var line := TrimEnd(lines[i]);
      HeadingLevel(line) > 0 || IsQuote(line) || (!IsBullet(line) && !IsOrdered(line))
    ensures Render(lines, i, false, inline)
         == SingleLine(TrimEnd(lines[i]), inline) + Render(lines, i + 1, false, inline)
  {
  }

  lemma RenderBullets(lines: seq<string>, i: nat, inline: Inline)
    requires i < |lines| && !IsFence(TrimEnd(lines[i]))
    requires var line := TrimEnd(lines[i]); HeadingLevel(line) == 0 && !IsQuote(line) && IsBullet(line)
    ensures BulletItem(lines[i])
    ensures var e := BulletRunEnd(lines, i);
      Render(lines, i, false, inline)
      == "<ul>\n" + BulletItems(lines, i, e, inline) + "</ul>\n" + Render(lines, e, false, inline)
  {
    BulletTrimEnd(lines[i]);
  }

  lemma RenderOrdered(lines: seq<string>, i: nat, inline: Inline)
    requires i < |lines| && !IsFence(TrimEnd(lines[i]))
    requires var line := TrimEnd(lines[i]);
      HeadingLevel(line) == 0 && !IsQuote(line) && !IsBullet(line) && IsOrdered(line)
    ensures IsOrdered(lines[i])
    ensures var e := OrderedRunEnd(lines, i);
      Render(lines, i, false, inline)
      == "<ol>\n" + OrderedItems(lines, i, e, inline) + "</ol>\n" + Render(lines, e, false, inline)
  {
    OrderedTrimEnd(lines[i]);
  }

  /** The inner loop over a bullet run. */
  method BulletList(lines: seq<string>, i: nat, inline: Inline) returns (out: string, e: nat)
    requires i < |lines| && BulletItem(lines[i])
    ensures e == BulletRunEnd(lines, i)
    ensures out == "<ul>\n" + BulletItems(lines, i, e, inline) + "</ul>\n"
  {
    out := "<ul>\n";
    e := i;
    while e < |lines| && BulletItem(lines[e])
      invariant i <= e <= BulletRunEnd(lines, i)
      invariant out == "<ul>\n" + BulletItems(lines, i, e, inline)
      decreases |lines| - e
    {
      var item := TrimStart(lines[e]);
      out := out + "<li>" + inline(item[2..]) + "</li>\n";
      e := e + 1;
    }
    out := out + "</ul>\n";
  }

  /** The inner loop over an ordered-list run. */
  method OrderedList(lines: seq<string>, i: nat, inline: Inline) returns (out: string, e: nat)
    requires i < |lines| && IsOrdered(lines[i])
    ensures e == OrderedRunEnd(lines, i)
    ensures out == "<ol>\n" + OrderedItems(lines, i, e, inline) + "</ol>\n"
  {
    out := "<ol>\n";
    e := i;
    while e < |lines| && IsOrdered(lines[e])
      invariant i <= e <= OrderedRunEnd(lines, i)
      invariant out == "<ol>\n" + OrderedItems(lines, i, e, inline)
      decreases |lines| - e
    {
      var dot := Find(lines[e], ". ");
      out := out + "<li>" + inline(lines[e][dot + 2..]) + "</li>\n";
      e := e + 1;
    }
    out := out + "</ol>\n";
  }

  /** One turn of the conversion loop at line `i`: what it appends, and the index and
      code-block flag it leaves for the next turn. */
  method Turn(lines: seq<string>, i: nat, inCode: bool, inline: Inline)
    returns (piece: string, next: nat, nextInCode: bool)
    requires i < |lines|
    ensures i < next <= |lines|
    ensures Render(lines, i, inCode, inline) == piece + Render(lines, next, nextInCode, inline)
  {
    var line := TrimEnd(lines[i]);
    next, nextInCode := i + 1, inCode;
    if IsFence(line) {
      RenderFence(lines, i, inCode, inline);
      if inCode {
        piece := "</code></pre>\n";
        nextInCode := false;
      } else {
        nextInCode := true;
        var codeLang := Trim(line[3..]);
        if codeLang == [] {
          piece := "<pre><code>";
        } else {
          piece := "<pre><code class=\"language-" + Html.EscapeHtml(codeLang) + "\">";
        }
      }
    } else if inCode {
      RenderCode(lines, i, inline);
      piece := Html.EscapeHtml(line) + "\n";
    } else if HeadingLevel(line) > 0 || IsQuote(line) {
      RenderSingle(lines, i, inline);
      piece := SingleLine(line, inline);
    } else if IsBullet(line) {
      RenderBullets(lines, i, inline);
      piece, next := BulletList(lines, i, inline);
    } else if IsOrdered(line) {
      RenderOrdered(lines, i, inline);
      piece, next := OrderedList(lines, i, inline);
    } else {
      RenderSingle(lines, i, inline);
      piece := SingleLine(line, inline);
    }
  }

  /** `simple_markdown_to_html`. */
  method MarkdownToHtml(markdown: string, inline: Inline) returns (html: string)
    ensures html == Render(Lines(markdown), 0, false, inline)
  {
    html := "";
    var lines := Lines(markdown);
    var i := 0;
    var inCode := false;
    while i < |lines|
      invariant i <= |lines|
      invariant html + Render(lines, i, inCode, inline) == Render(lines, 0, false, inline)
      decreases |lines| - i
    {
      var piece;
      piece, i, inCode := Turn(lines, i, inCode, inline);
      html := html + piece;
    }
  }

  // ---------------------------------------------------------------- properties

  /** The lines `a` to `b` as they appear inside a code block: escaped, one per line. */
  function Escaped(lines: seq<string>, a: nat, b: nat): string
    requires a <= b <= |lines|
    decreases b - a
  {
    if a == b then "" else Html.EscapeHtml(TrimEnd(lines[a])) + "\n" + Escaped(lines, a + 1, b)
  }

  /** Inside a code block every line up to the next fence is emitted escaped. */
  lemma {:induction false} CodeBody(lines: seq<string>, a: nat, b: nat, inline: Inline)
    requires a <= b <= |lines|
    requires forall k | a <= k < b :: !IsFence(TrimEnd(lines[k]))
    ensures Render(lines, a, true, inline) == Escaped(lines, a, b) + Render(lines, b, true, inline)
    decreases b - a
  {
    if a < b {
      RenderCode(lines, a, inline);
      CodeBody(lines, a + 1, b, inline);
      Join(Render(lines, a, true, inline), Html.EscapeHtml(TrimEnd(lines[a])) + "\n",
           Render(lines, a + 1, true, inline), Escaped(lines, a + 1, b), Render(lines, b, true, inline),
           Escaped(lines, a, b));
    }
  }

  lemma Join(whole: string, head: string, tail: string, body: string, rest: string, all: string)
    requires whole == head + tail && tail == body + rest && all == head + body
    ensures whole == all + rest
  {
  }

  /** A fenced block: the opening fence (with its language), the escaped body and the
      closing tag, after which rendering resumes outside code. */
  lemma FencedBlock(lines: seq<string>, i: nat, j: nat, inline: Inline)
    requires i < j < |lines|
    requires IsFence(TrimEnd(lines[i])) && IsFence(TrimEnd(lines[j]))
    requires forall k | i < k < j :: !IsFence(TrimEnd(lines[k]))
    ensures Render(lines, i, false, inline)
         == OpenCode(Trim(TrimEnd(lines[i])[3..])) + Escaped(lines, i + 1, j) + "</code></pre>\n"
            + Render(lines, j + 1, false, inline)
  {
    var open, body, rest := OpenCode(Trim(TrimEnd(lines[i])[3..])), Escaped(lines, i + 1, j),
                            Render(lines, j + 1, false, inline);
    RenderFence(lines, i, false, inline);
    CodeBody(lines, i + 1, j, inline);
    RenderFence(lines, j, true, inline);
    assert Render(lines, i, false, inline) == open + (body + ("</code></pre>\n" + rest));
  }

  lemma {:induction false} EscapedMarkupFree(lines: seq<string>, a: nat, b: nat)
    requires a <= b <= |lines|
    ensures '<' !in Escaped(lines, a, b)
    decreases b - a
  {
    if a < b {
      var e := Html.EscapeHtml(TrimEnd(lines[a]));
      Html.EscapedIsMarkupFree(TrimEnd(lines[a]));
      EscapedMarkupFree(lines, a + 1, b);
      assert '<' !in e;
    }
  }

  /** A code block left open runs to the end of the document and emits no tag at all,
      in particular no closing `</code></pre>`. */
  lemma UnclosedCodeBlock(lines: seq<string>, a: nat, inline: Inline)
    requires a <= |lines|
    requires forall k | a <= k < |lines| :: !IsFence(TrimEnd(lines[k]))
    ensures Render(lines, a, true, inline) == Escaped(lines, a, |lines|)
    ensures '<' !in Render(lines, a, true, inline)
  {
    CodeBody(lines, a, |lines|, inline);
    EscapedMarkupFree(lines, a, |lines|);
  }

  /** `n` hash signs. */
  function Hashes(n: nat): string
  {
    seq(n, _ => '#')
  }

  /** `n` hash signs and a space are read as a heading of level `n`. */
  lemma HeadingLevelOf(n: nat, text: string)
    requires 1 <= n <= 6
    ensures var line := Hashes(n) + " " + text;
      HeadingLevel(line) == n && line[n + 1..] == text && line[0] == '#'
  {
    var line := Hashes(n) + " " + text;
    assert line[0] == '#' && line[n] == ' ';
    assert line[n + 1..] == text;
    if n > 1 { assert line[1] == '#'; }
    if n > 2 { assert line[2] == '#'; }
    if n > 3 { assert line[3] == '#'; }
    if n > 4 { assert line[4] == '#'; }
    if n > 5 { assert line[5] == '#'; }
    assert line[..n + 1] == Hashes(n) + " ";
  }

  /** A line of `n` hash signs, a space and some text is an `<hn>` heading holding the
      escaped text, for every level from 1 to 6. */
  lemma HeadingLine(lines: seq<string>, i: nat, n: nat, text: string, inline: Inline)
    requires i < |lines| && 1 <= n <= 6
    requires TrimEnd(lines[i]) == Hashes(n) + " " + text
    ensures Render(lines, i, false, inline) == Heading(n, text) + Render(lines, i + 1, false, inline)
  {
    HeadingLevelOf(n, text);
    RenderSingle(lines, i, inline);
  }

  /** Outside code, a line that is empty once right-trimmed emits nothing. */
  lemma BlankLine(lines: seq<string>, i: nat, inline: Inline)
    requires i < |lines| && TrimEnd(lines[i]) == []
    ensures Render(lines, i, false, inline) == Render(lines, i + 1, false, inline)
  {
    RenderSingle(lines, i, inline);
  }

  /** Outside code, a document tail of blank or whitespace-only lines emits nothing. */
  lemma {:induction false} BlankTail(lines: seq<string>, i: nat, inline: Inline)
    requires i <= |lines|
    requires forall k | i <= k < |lines| :: TrimEnd(lines[k]) == []
    ensures Render(lines, i, false, inline) == ""
    decreases |lines| - i
  {
    if i < |lines| {
      BlankLine(lines, i, inline);
      BlankTail(lines, i + 1, inline);
    }
  }

  /** A run of consecutive bullet lines becomes exactly one `<ul>` holding one item per
      line of the run; the run is maximal, so the line after it is not a bullet line. */
  lemma BulletRun(lines: seq<string>, i: nat, inline: Inline)
    requires i < |lines| && IsBullet(TrimEnd(lines[i]))
    ensures BulletItem(lines[i])
    ensures var e := BulletRunEnd(lines, i);
      i < e && (e < |lines| ==> !IsBullet(TrimEnd(lines[e]))) &&
      Render(lines, i, false, inline)
        == "<ul>\n" + BulletItems(lines, i, e, inline) + "</ul>\n" + Render(lines, e, false, inline)
  {
    var line := TrimEnd(lines[i]);
    assert line[0] == '-' || line[0] == '*';
    RenderBullets(lines, i, inline);
    var e := BulletRunEnd(lines, i);
    if e < |lines| && IsBullet(TrimEnd(lines[e])) {
      BulletTrimEnd(lines[e]);
    }
  }

  /** A run of ordered-list lines becomes exactly one `<ol>`, one item per line. */
  lemma OrderedRun(lines: seq<string>, i: nat, inline: Inline)
    requires i < |lines| && IsOrdered(TrimEnd(lines[i]))
    ensures IsOrdered(lines[i])
    ensures var e := OrderedRunEnd(lines, i);
      i < e && (e < |lines| ==> !IsOrdered(lines[e])) &&
      Render(lines, i, false, inline)
        == "<ol>\n" + OrderedItems(lines, i, e, inline) + "</ol>\n" + Render(lines, e, false, inline)
  {
    var line := TrimEnd(lines[i]);
    assert IsDigit(line[0]);
    assert line[0] != '#' && line[0] != '`' && line[0] != '>' && line[0] != '-' && line[0] != '*';
    RenderOrdered(lines, i, inline);
  }
}
