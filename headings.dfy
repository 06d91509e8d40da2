/** Heading lines: the regular expression `(^#*)\s*(.*)` shared by
    line_to_section and get_title, the table of sectioning commands, and the
    rendering of one heading line. */
module Headings {
  import opened Common
  import opened Lines
  import opened Escaping

  /** The two groups of `(^#*)\s*(.*)`: the number of leading `#`, and the text
      after the whitespace that follows them, up to the first line break. */
  datatype HeadingMatch = HeadingMatch(depth: nat, text: string)

  /** `re.match(r"(^#*)\s*(.*)", line)`. Every group may match the empty
      string, so the match never fails and no backtracking is needed. */
  function MatchHeading(line: string): HeadingMatch
  {
    var n := LeadingHashes(line);
    HeadingMatch(n, TakeLine(SkipSpace(line[n..])))
  }

  /** `section_lookup` in line_to_section. */
  const SectionLookup: map<int, string> := map[
    2 := "section",
    3 := "subsection",
    4 := "subsubsection",
    5 := "paragraph",
    6 := "subparagraph"]

  /** The lookup and the f-string of line_to_section: a depth without an
      entry in SectionLookup gives the empty string, any other
      `\<command>{<text>}`. */
  function SectionFor(depth: int, text: string): (r: string)
    ensures r != "" <==> 2 <= depth <= 6
    ensures r != "" ==> r[0] == '\\' && r[|r| - 1] == '}'
  {
    if depth !in SectionLookup then ""
    else "\\" + SectionLookup[depth] + "{" + text + "}"
  }

  /** line_to_section: the heading's depth picks the command and its text,
      escaped, goes between the braces. */
  function LineToSection(line: string): (r: string)
    requires StartsWith(line, "#")
    ensures r != "" <==> 2 <= MatchHeading(line).depth <= 6
  {
    var m := MatchHeading(line);
    SectionFor(m.depth, Escape(m.text))
  }

  /** get_title: the text group of the first line. An empty text has no first
      line and raises; the `if not m` branch is unreachable because the match
      cannot fail, so no result is ever `None`. */
  function GetTitle(text: string): (r: Result<string>)
    ensures r.Err? <==> text == ""
    ensures r.Err? ==> r.error == NoFirstLine
    ensures r.Ok? ==> '\n' !in r.value && (r.value == [] || !IsSpace(r.value[0]))
  {
    var lines := SplitLines(text);
    if lines == [] then Err(NoFirstLine)
    else
      var t := MatchHeading(lines[0]).text;
      assert t == [] || t[0] == SkipSpace(lines[0][LeadingHashes(lines[0])..])[0];
      Ok(t)
  }

  // ---------------------------------------------------------------------
  // Properties

  /** A line built as `n` hashes, whitespace and a body that starts with
      neither `#` (when no whitespace intervenes) nor whitespace is matched
      back into its depth and the body's first line. */
  lemma {:induction false} MatchComposed(n: nat, ws: string, body: string)
    requires forall i :: 0 <= i < |ws| ==> IsSpace(ws[i])
    requires ws + body == [] || (ws + body)[0] != '#'
    requires body == [] || !IsSpace(body[0])
    ensures MatchHeading(Hashes(n) + (ws + body)) == HeadingMatch(n, TakeLine(body))
  {
    var rest := ws + body;
    HashesThen(n, rest);
    SpacesThen(ws, body);
    MatchAt(Hashes(n) + rest, n, rest);
  }

  /** `n` hashes in front of a text that does not start with one. */
  lemma HashesThen(n: nat, rest: string)
    requires rest == [] || rest[0] != '#'
    ensures LeadingHashes(Hashes(n) + rest) == n && (Hashes(n) + rest)[n..] == rest
  {
    var line := Hashes(n) + rest;
    assert n == |line| || line[n] == rest[0];
    LeadingHashesAt(line, n);
    assert line[n..] == rest;
  }

  /** Whitespace in front of a text that does not start with any. */
  lemma SpacesThen(ws: string, body: string)
    requires forall i :: 0 <= i < |ws| ==> IsSpace(ws[i])
    requires body == [] || !IsSpace(body[0])
    ensures SkipSpace(ws + body) == body
  {
    var rest := ws + body;
    assert |ws| == |rest| || rest[|ws|] == body[0];
    SkipSpaceAt(rest, |ws|);
    assert rest[|ws|..] == body;
  }

  /** The match is fixed by the count of leading hashes and what follows them. */
  lemma MatchAt(line: string, k: nat, rest: string)
    requires LeadingHashes(line) == k && line[k..] == rest
    ensures MatchHeading(line) == HeadingMatch(k, TakeLine(SkipSpace(rest)))
  {
  }

  /** Prepending hashes deepens a line's heading by exactly that many levels
      and leaves its text alone: this is the heading shift of transclusion. */
  lemma {:induction false} MatchShifted(n: nat, line: string)
    ensures MatchHeading(Hashes(n) + line) ==
      HeadingMatch(MatchHeading(line).depth + n, MatchHeading(line).text)
  {
    var s := Hashes(n) + line;
    var d := LeadingHashes(line);
    assert LeadingHashes(s) == n + d by {
      forall i | 0 <= i < n + d ensures s[i] == '#' {
        if i >= n {
          assert s[i] == line[i - n];
        }
      }
      assert n + d == |s| || s[n + d] == line[d];
      LeadingHashesAt(s, n + d);
    }
    assert s[n + d..] == line[d..];
    MatchAt(s, n + d, line[d..]);
    MatchAt(line, d, line[d..]);
  }

  /** The sectioning commands, depth by depth. */
  lemma SectionTable(depth: int, t: string)
    ensures depth == 2 ==> SectionFor(depth, t) == "\\section{" + t + "}"
    ensures depth == 3 ==> SectionFor(depth, t) == "\\subsection{" + t + "}"
    ensures depth == 4 ==> SectionFor(depth, t) == "\\subsubsection{" + t + "}"
    ensures depth == 5 ==> SectionFor(depth, t) == "\\paragraph{" + t + "}"
    ensures depth == 6 ==> SectionFor(depth, t) == "\\subparagraph{" + t + "}"
    ensures depth < 2 || depth > 6 ==> SectionFor(depth, t) == ""
  {
    if depth == 2 {
      assert "\\" + "section" + "{" == "\\section{";
    } else if depth == 3 {
      assert "\\" + "subsection" + "{" == "\\subsection{";
    } else if depth == 4 {
      assert "\\" + "subsubsection" + "{" == "\\subsubsection{";
    } else if depth == 5 {
      assert "\\" + "paragraph" + "{" == "\\paragraph{";
    } else if depth == 6 {
      assert "\\" + "subparagraph" + "{" == "\\subparagraph{";
    }
  }

  /** The rendering of a heading line: depths 2 to 6 give exactly
      `\section`, `\subsection`, `\subsubsection`, `\paragraph` and
      `\subparagraph` around the escaped heading text; depth 1 and depths
      beyond 6 give nothing. */
  lemma HeadingCommands(line: string)
    requires StartsWith(line, "#")
    ensures MatchHeading(line).depth >= 1
    ensures var m := MatchHeading(line); var t := Escape(m.text);
      && (m.depth == 2 ==> LineToSection(line) == "\\section{" + t + "}")
      && (m.depth == 3 ==> LineToSection(line) == "\\subsection{" + t + "}")
      && (m.depth == 4 ==> LineToSection(line) == "\\subsubsection{" + t + "}")
      && (m.depth == 5 ==> LineToSection(line) == "\\paragraph{" + t + "}")
      && (m.depth == 6 ==> LineToSection(line) == "\\subparagraph{" + t + "}")
      && (m.depth == 1 || m.depth > 6 ==> LineToSection(line) == "")
  {
    assert line[0] == '#';
    var m := MatchHeading(line);
    SectionTable(m.depth, Escape(m.text));
  }

  /** The title is the text group of the first line: everything after its
      leading hashes and the whitespace that follows them. */
  lemma TitleOfFirstLine(line: string, rest: string)
    requires '\n' !in line
    requires rest == [] || rest[0] == '\n'
    requires line + rest != []
    ensures GetTitle(line + rest) == Ok(MatchHeading(line).text)
  {
    FirstLine(line, rest);
  }
}
