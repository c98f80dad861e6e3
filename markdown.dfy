/** The line-oriented Markdown converter of src/utils/markdown.js. The
    inline formatter is the parameter `inline`, and the final regular
    expression that wraps runs of `<li>` in `<ul>` is not modelled. */
module Markdown {
  import opened Text

  /** `esc`: `&`, `<` and `>` as entities, every other character kept. */
  function Esc(s: string): (r: string)
    ensures '<' !in r && '>' !in r
  {
    if s == [] then [] else EscChar(s[0]) + Esc(s[1..])
  }

  function EscChar(c: char): (r: string)
    ensures '<' !in r && '>' !in r
  {
    if c == '&' then "&amp;" else if c == '<' then "&lt;" else if c == '>' then "&gt;" else [c]
  }

  /** The inverse of `Esc`: the three entities back to their characters. */
  function Unescape(s: string): string
    decreases |s|
  {
    if s == [] then []
    else if s[0] != '&' then [s[0]] + Unescape(s[1..])
    else if StartsWith(s, "&amp;") then "&" + Unescape(s[5..])
    else if StartsWith(s, "&lt;") then "<" + Unescape(s[4..])
    else if StartsWith(s, "&gt;") then ">" + Unescape(s[4..])
    else [s[0]] + Unescape(s[1..])
  }

  /** One escaped character reads back as itself, whatever follows it. */
  lemma UnescapeEscChar(c: char, rest: string)
    ensures Unescape(EscChar(c) + rest) == [c] + Unescape(rest)
  {
    var e := EscChar(c) + rest;
    if c == '&' {
      assert StartsWith(e, "&amp;") && e[5..] == rest;
    } else if c == '<' {
      assert e[1] == 'l' && StartsWith(e, "&lt;") && e[4..] == rest;
    } else if c == '>' {
      assert e[1] == 'g' && e[..4] != "&lt;" && StartsWith(e, "&gt;") && e[4..] == rest;
    } else {
      assert e[0] == c && e[1..] == rest;
    }
  }

  /** Escaping loses nothing. */
  lemma {:induction false} UnescapeEsc(s: string)
    ensures Unescape(Esc(s)) == s
  {
    if s != [] {
      UnescapeEsc(s[1..]);
      UnescapeEscChar(s[0], Esc(s[1..]));
      assert s == [s[0]] + s[1..];
    }
  }

  /** `md.split(/\r?\n/)`. */
  function SplitLines(s: string): (lines: seq<string>)
    ensures |lines| >= 1
    ensures forall k | 0 <= k < |lines| :: '\n' !in lines[k]
    decreases |s|
  {
    if s == [] then [""]
    else if s[0] == '\n' then [""] + SplitLines(s[1..])
    else if |s| >= 2 && s[0] == '\r' && s[1] == '\n' then [""] + SplitLines(s[2..])
    else
      var rest := SplitLines(s[1..]);
      var lines := [[s[0]] + rest[0]] + rest[1..];
      assert forall k | 1 <= k < |lines| :: lines[k] == rest[k];
      lines
  }

  function CountChar(s: string, c: char): nat {
    if s == [] then 0 else (if s[0] == c then 1 else 0) + CountChar(s[1..], c)
  }

  /** One line per line break, plus one. */
  lemma {:induction false} SplitLinesCount(s: string)
    ensures |SplitLines(s)| == CountChar(s, '\n') + 1
    decreases |s|
  {
    if s == [] {
    } else if s[0] == '\n' {
      SplitLinesCount(s[1..]);
    } else if |s| >= 2 && s[0] == '\r' && s[1] == '\n' {
      SplitLinesCount(s[2..]);
      assert CountChar(s, '\n') == CountChar(s[1..], '\n');
    } else {
      SplitLinesCount(s[1..]);
    }
  }

  /** Without carriage returns, joining the lines with `\n` restores the text. */
  lemma {:induction false} JoinSplitLines(s: string)
    requires '\r' !in s
    ensures Join(SplitLines(s), "\n") == s
    decreases |s|
  {
    if s == [] {
    } else if s[0] == '\n' {
      JoinSplitLines(s[1..]);
      var ls := [""] + SplitLines(s[1..]);
      assert ls[1..] == SplitLines(s[1..]);
      assert s == "\n" + s[1..];
    } else {
      JoinSplitLines(s[1..]);
      JoinConsFirst(s[0], SplitLines(s[1..]), "\n");
      assert s == [s[0]] + s[1..];
    }
  }

  /** The kind of a line, by the tests of the converter in their order. */
  datatype LineKind =
    | Fence
    | Heading(level: nat, text: string)
    | Bullet(text: string)
    | Blank
    | Paragraph

  predicate AllSpace(s: string) {
    forall k | 0 <= k < |s| :: IsSpace(s[k])
  }

  /** `/^#{n}\s+/` for n of 1 to 3: exactly n `#`, then `\s`. */
  predicate HeadingOf(line: string, n: nat) {
    && 1 <= n <= 3 && n < |line| && IsSpace(line[n])
    && (forall j | 0 <= j < n :: line[j] == '#')
  }

  predicate IsHeading(line: string) {
    HeadingOf(line, 1) || HeadingOf(line, 2) || HeadingOf(line, 3)
  }

  /** `[-*]\s` at the start of a text whose leading `\s` run is cut off. */
  predicate BulletStart(t: string) {
    |t| >= 2 && (t[0] == '-' || t[0] == '*') && IsSpace(t[1])
  }

  /** The classifier: a fence starts with three backticks; `#`, `##`, `###`
      followed by `\s` make headings; optional `\s`, then `-` or `*`, then
      `\s` make a bullet; an all-`\s` line is blank; the rest is a
      paragraph. Each test applies only where the earlier ones fail. */
  function Classify(line: string): (k: LineKind)
    ensures k.Fence? <==> StartsWith(line, "```")
    ensures k.Heading? <==> !StartsWith(line, "```") && IsHeading(line)
    ensures k.Heading? ==> HeadingOf(line, k.level) && k.text == TrimStart(line[k.level..])
    ensures k.Bullet? <==> !StartsWith(line, "```") && !IsHeading(line) && BulletStart(TrimStart(line))
    ensures k.Bullet? ==> k.text == TrimStart(TrimStart(line)[1..])
    ensures k.Blank? <==> !StartsWith(line, "```") && !IsHeading(line) && !BulletStart(TrimStart(line)) && AllSpace(line)
  {
    if StartsWith(line, "```") then Fence
    else
      var n := HeadingLevel(line);
      if n > 0 then Heading(n, TrimStart(line[n..])) else Unprefixed(line)
  }

  /** Which of `#`, `##`, `###` followed by `\s` opens the line, tested in
      that order; 0 when none does. At most one of them can hold, since `#`
      is not `\s`. */
  function HeadingLevel(line: string): (n: nat)
    ensures n <= 3
    ensures n > 0 ==> HeadingOf(line, n)
    ensures n == 0 <==> !IsHeading(line)
  {
    if |line| >= 2 && line[0] == '#' && IsSpace(line[1]) then 1
    else if |line| >= 3 && line[0] == '#' && line[1] == '#' && IsSpace(line[2]) then 2
    else if |line| >= 4 && line[0] == '#' && line[1] == '#' && line[2] == '#' && IsSpace(line[3]) then 3
    else 0
  }

  /** The tests after the fence and heading ones: bullet, blank, paragraph. */
  function Unprefixed(line: string): (k: LineKind)
    ensures k.Bullet? || k.Blank? || k.Paragraph?
    ensures k.Bullet? <==> BulletStart(TrimStart(line))
    ensures k.Bullet? ==> k.text == TrimStart(TrimStart(line)[1..])
    ensures k.Blank? <==> !BulletStart(TrimStart(line)) && AllSpace(line)
  {
    var t := TrimStart(line);
    if BulletStart(t) then
      Bullet(TrimStart(t[1..]))
    else if t == [] then
      TrimStartDropsSpace(line);
      Blank
    else
      assert !IsSpace(line[|line| - |t|]) by { assert line[|line| - |t|] == t[0]; }
      Paragraph
  }

  const Open := "<pre><code>"
  const Close := "</code></pre>"

  /** An output entry and the code flag after it. */
  datatype Emitted = Emitted(entry: string, inCode: bool)

  /** `<tag>body</tag>`. */
  function Element(tag: string, body: string): (r: string)
    requires tag != []
    ensures |r| == 2 * |tag| + |body| + 5
    ensures r[0] == '<' && r[1] == tag[0] && r[|tag| + 1] == '>'
    ensures r[|tag| + 2..|r| - |tag| - 3] == body
  {
    var r := "<" + tag + ">" + body + "</" + tag + ">";
    assert r[1..|tag| + 1] == tag;
    assert r[|tag| + 2..|r| - |tag| - 3] == body;
    r
  }

  /** The tag of a heading of level `n`: `h1`, `h2` or `h3`. */
  function HeadingTag(n: nat): (tag: string)
    requires 1 <= n <= 3
    ensures |tag| == 2 && tag[0] == 'h' && tag[1] == DigitChar(n)
  {
    "h" + [DigitChar(n)]
  }

  /** What a line outside code mode and not a fence becomes: a heading or a
      list item of the escaped remainder, nothing, or a paragraph of the
      unescaped `inline(line)`. It is never one of the code-block tags. */
  function Convert(line: string, inline: string -> string): (entry: string)
    requires !StartsWith(line, "```")
    ensures entry != Open && entry != Close
    ensures match Classify(line)
      case Heading(n, text) => entry == Element(HeadingTag(n), Esc(text))
      case Bullet(text) => entry == Element("li", Esc(text))
      case Paragraph => entry == Element("p", inline(line))
      case _ => entry == ""
  {
    match Classify(line)
    case Heading(n, text) =>
      ElementIsNoCodeTag(HeadingTag(n), Esc(text));
      Element(HeadingTag(n), Esc(text))
    case Bullet(text) => ElementIsNoCodeTag("li", Esc(text)); Element("li", Esc(text))
    case Blank => ""
    case Paragraph => ElementIsNoCodeTag("p", inline(line)); Element("p", inline(line))
    case Fence => ""
  }

  /** An element whose tag starts neither with `/` nor with `p` unless it
      is `p` itself is neither code-block tag. */
  lemma ElementIsNoCodeTag(tag: string, body: string)
    requires tag != [] && tag[0] != '/' && (tag[0] == 'p' ==> tag == "p")
    ensures Element(tag, body) != Open && Element(tag, body) != Close
  {
    var r := Element(tag, body);
    assert Open[1] == 'p' && Open[2] == 'r' && Close[1] == '/';
    if tag == "p" {
      assert r[2] == '>';
    }
  }

  /** A heading or list item reads back as the text after its marker: the
      four characters of the opening tag and the five of the closing one
      cut off, the entities undone. A paragraph holds `inline(line)`. */
  lemma ConvertReadsBack(line: string, inline: string -> string)
    requires !StartsWith(line, "```")
    ensures var k := Classify(line); var e := Convert(line, inline);
      && (k.Heading? ==> |e| >= 9 && Unescape(e[4..|e| - 5]) == TrimStart(line[k.level..]))
      && (k.Bullet? ==> |e| >= 9 && Unescape(e[4..|e| - 5]) == TrimStart(TrimStart(line)[1..]))
      && (k.Paragraph? ==> |e| >= 7 && e[3..|e| - 4] == inline(line))
      && (k.Blank? ==> e == "")
  {
    var k := Classify(line);
    if k.Heading? || k.Bullet? {
      UnescapeEsc(k.text);
    }
  }

  /** The entry one line produces, and the code flag after it: a fence
      toggles the flag and opens or closes the code block, a line inside
      the block is escaped, and any other line is converted. */
  function Step(line: string, inCode: bool, inline: string -> string): (e: Emitted)
    ensures e.inCode == (inCode != StartsWith(line, "```"))
    ensures e.entry == Open <==> StartsWith(line, "```") && !inCode
    ensures e.entry == Close <==> StartsWith(line, "```") && inCode
    ensures !StartsWith(line, "```") && inCode ==> e.entry == Esc(line)
    ensures !StartsWith(line, "```") && !inCode ==> e.entry == Convert(line, inline)
  {
    if StartsWith(line, "```") then Emitted(if inCode then Close else Open, !inCode)
    else if inCode then
      assert '<' in Open && '<' in Close;
      Emitted(Esc(line), inCode)
    else Emitted(Convert(line, inline), inCode)
  }

  /** The result of the loop: the entries, one per line, and the final flag. */
  datatype Rendered = Rendered(out: seq<string>, inCode: bool)

  function Render(lines: seq<string>, inline: string -> string): (r: Rendered)
    ensures |r.out| == |lines|
    decreases |lines|
  {
    if lines == [] then Rendered([], false)
    else
      var prev := Render(lines[..|lines| - 1], inline);
      var e := Step(lines[|lines| - 1], prev.inCode, inline);
      Rendered(prev.out + [e.entry], e.inCode)
  }

  /** One more line appends its entry and sets the flag. */
  lemma RenderSnoc(lines: seq<string>, inline: string -> string, i: nat)
    requires i < |lines|
    ensures var prev := Render(lines[..i], inline);
      var e := Step(lines[i], prev.inCode, inline);
      Render(lines[..i + 1], inline) == Rendered(prev.out + [e.entry], e.inCode)
  {
    assert lines[..i + 1][..i] == lines[..i];
  }

  /** Entry `k` is what line `k` produces in the mode the lines before it leave. */
  lemma {:induction false} RenderAt(lines: seq<string>, inline: string -> string, k: nat)
    requires k < |lines|
    ensures Render(lines, inline).out[k] == Step(lines[k], Render(lines[..k], inline).inCode, inline).entry
    decreases |lines|
  {
    if k < |lines| - 1 {
      var init := lines[..|lines| - 1];
      RenderAt(init, inline, k);
      assert init[..k] == lines[..k];
    } else {
      assert lines[..|lines| - 1] == lines[..k];
    }
  }

  /** Inside a code block a line is only escaped: its entry is `Esc` of the
      line, holds no `<` or `>`, and reads back as the line. */
  lemma CodeLineInert(lines: seq<string>, inline: string -> string, k: nat)
    requires k < |lines| && Render(lines[..k], inline).inCode && !StartsWith(lines[k], "```")
    ensures Render(lines, inline).out[k] == Esc(lines[k])
    ensures '<' !in Render(lines, inline).out[k] && '>' !in Render(lines, inline).out[k]
    ensures Unescape(Render(lines, inline).out[k]) == lines[k]
  {
    RenderAt(lines, inline, k);
    UnescapeEsc(lines[k]);
  }

  function CountFences(lines: seq<string>): nat {
    if lines == [] then 0
    else CountFences(lines[..|lines| - 1]) + (if StartsWith(lines[|lines| - 1], "```") then 1 else 0)
  }

  function CountEntry(out: seq<string>, entry: string): nat {
    if out == [] then 0
    else CountEntry(out[..|out| - 1], entry) + (if out[|out| - 1] == entry then 1 else 0)
  }

  lemma CountEntrySnoc(out: seq<string>, e: string, entry: string)
    ensures CountEntry(out + [e], entry) == CountEntry(out, entry) + (if e == entry then 1 else 0)
  {
    assert (out + [e])[..|out|] == out;
  }

  /** The code flag after the last line is the parity of the fence count. */
  lemma {:induction false} FenceParity(lines: seq<string>, inline: string -> string)
    ensures Render(lines, inline).inCode == (CountFences(lines) % 2 == 1)
    decreases |lines|
  {
    if lines != [] {
      var init := lines[..|lines| - 1];
      FenceParity(init, inline);
      var fence := StartsWith(lines[|lines| - 1], "```");
      assert Render(lines, inline).inCode == (Render(init, inline).inCode != fence);
      assert CountFences(lines) == CountFences(init) + (if fence then 1 else 0);
      Parity(CountFences(init), fence);
    }
  }

  /** One more fence flips the parity; any other line keeps it. */
  lemma Parity(n: nat, fence: bool)
    ensures ((n + (if fence then 1 else 0)) % 2 == 1) == ((n % 2 == 1) != fence)
  {
    var q := n / 2;
    if n % 2 == 0 {
      assert n + 1 == 2 * q + 1;
    } else {
      assert n + 1 == 2 * (q + 1);
    }
  }

  /** Fences alternate: every close follows an open, and at most one block
      is left open at the end. */
  lemma {:induction false} FenceBalance(lines: seq<string>, inline: string -> string)
    ensures var r := Render(lines, inline);
      CountEntry(r.out, Open) == CountEntry(r.out, Close) + (if r.inCode then 1 else 0)
    decreases |lines|
  {
    if lines != [] {
      var init := lines[..|lines| - 1];
      FenceBalance(init, inline);
      var prev := Render(init, inline);
      var e := Step(lines[|lines| - 1], prev.inCode, inline);
      assert Render(lines, inline) == Rendered(prev.out + [e.entry], e.inCode);
      CountEntrySnoc(prev.out, e.entry, Open);
      CountEntrySnoc(prev.out, e.entry, Close);
    }
  }

  /** As many `<pre><code>` as `</code></pre>` exactly when the number of
      fence lines is even. */
  lemma FencesPairUp(lines: seq<string>, inline: string -> string)
    ensures var r := Render(lines, inline);
      CountEntry(r.out, Open) == CountEntry(r.out, Close) <==> CountFences(lines) % 2 == 0
  {
    FenceParity(lines, inline);
    FenceBalance(lines, inline);
  }

  /** `mdToHtml` up to the `<ul>` wrapping: empty input gives the empty
      text; otherwise each line is classified and converted in order, with
      the code flag carried from line to line, and the entries are joined
      with `\n`. */
  method MdToHtml(md: string, inline: string -> string) returns (html: string)
    ensures md == "" ==> html == ""
    ensures md != "" ==> html == Join(Render(SplitLines(md), inline).out, "\n")
  {
    if md == "" {
      return "";
    }
    var lines := SplitLines(md);
    var out: seq<string> := [];
    var inCode := false;
    var i := 0;
    while i < |lines|
      invariant 0 <= i <= |lines|
      invariant Render(lines[..i], inline) == Rendered(out, inCode)
    {
      var line := lines[i];
      RenderSnoc(lines, inline, i);
      var entry: string;
      if StartsWith(line, "```") {
        entry := if inCode then Close else Open;
        inCode := !inCode;
      } else if inCode {
        entry := Esc(line);
      } else {
        entry := Convert(line, inline);
      }
      out := out + [entry];
      i := i + 1;
    }
    assert lines[..i] == lines;
    html := Join(out, "\n");
  }
}
