/** The converter proper: obsidian_to_tex, line_to_tex and include_doc, which
    call each other when a document embeds another one.

    include_doc keeps a nesting counter in a dictionary that persists from
    call to call (the default value of its `_depth` argument). Here the
    counter is a number: 0 while the dictionary is still empty, its entry
    afterwards. The functions below give the meaning of the three
    operations as values, with the counter threaded through explicitly; the
    class Converter further down performs them step by step and is proved to
    agree with them. */
module Transclusion {
  import opened Common
  import opened Lines
  import opened Escaping
  import opened Headings
  import opened Paths
  import opened Embeds

  /** What the converter reads from outside: the walk of the vault in the
      order `os.walk` yields it, the text of every file by path, and the
      path separator of the host. */
  datatype Env = Env(walk: seq<WalkEntry>, files: map<string, string>, sep: char)

  /** An outcome together with the counter as it stands afterwards. */
  datatype Step<T> = Step(result: Result<T>, depth: nat)

  /** The counter once include_doc has started: an empty dictionary gets the
      entry 1, an existing entry is kept. */
  function Entered(d: nat): (r: nat)
    ensures d == 0 ==> r == 1
    ensures d >= 1 ==> r == d
  {
    if d == 0 then 1 else d
  }

  /** The heading shift of include_doc: a line starting with `#` gets `n`
      more in front of it. */
  function ShiftHeading(line: string, n: nat): string
  {
    if StartsWith(line, "#") then Hashes(n) + line else line
  }

  function ShiftHeadings(lines: seq<string>, n: nat): seq<string>
  {
    if lines == [] then [] else [ShiftHeading(lines[0], n)] + ShiftHeadings(lines[1..], n)
  }

  /** The rendering of one line that is not an embed. */
  function PlainLine(line: string): string
  {
    if StartsWith(line, "#") then LineToSection(line) else Escape(line)
  }

  /** Lines are embeds when they start with `![[`. */
  predicate NoEmbeds(lines: seq<string>)
  {
    forall i :: 0 <= i < |lines| ==> !StartsWith(lines[i], EmbedOpen)
  }

  /** The counter after a call that started at `d` and returned normally:
      unchanged, except that the first include_doc ever creates it. */
  predicate Restored(d: nat, after: nat)
  {
    after == d || (d == 0 && after == 1)
  }

  /** obsidian_to_tex: the lines rendered one by one, joined with line breaks
      and ended with one. An exception from any line propagates. */
  function Tex(env: Env, d: nat, fuel: nat, text: string): (s: Step<string>)
    ensures s.depth >= d
    ensures s.result.Ok? ==> Restored(d, s.depth)
    decreases fuel, 3, 0
  {
    var s := TexLines(env, d, fuel, SplitLines(text));
    match s.result
    case Ok(lines) => Step(Ok(JoinLines(lines) + "\n"), s.depth)
    case Err(e) => Step(Err(e), s.depth)
  }

  /** obsidian_to_tex returns one rendered line for every line of the text,
      joined with line breaks and ended with one. Each rendered line is what
      line_to_tex gives for its own line with include_doc's counter set up,
      so every embed of the text sees the same counter. An empty text gives
      a lone line break and leaves the counter alone. */
  lemma TexShape(env: Env, d: nat, fuel: nat, text: string)
    ensures var s := Tex(env, d, fuel, text);
      var lines := SplitLines(text);
      && (s.result.Ok? ==> exists ls :: (|ls| == |lines| && s.result.value == JoinLines(ls) + "\n" &&
            forall i :: 0 <= i < |lines| ==> TexLine(env, Entered(d), fuel, lines[i]) == Step(Ok(ls[i]), Entered(d))))
      && (text == "" ==> s == Step(Ok("\n"), d))
  {
    var lines := SplitLines(text);
    var s := TexLines(env, d, fuel, lines);
    if s.result.Ok? {
      var ls := s.result.value;
      assert |ls| == |lines| && Tex(env, d, fuel, text).result.value == JoinLines(ls) + "\n";
      assert forall i :: 0 <= i < |lines| ==> TexLine(env, Entered(d), fuel, lines[i]) == Step(Ok(ls[i]), Entered(d)) by {
        TexLinesEach(env, d, fuel, lines);
      }
      assert exists ls :: (|ls| == |lines| && Tex(env, d, fuel, text).result.value == JoinLines(ls) + "\n" &&
        forall i :: 0 <= i < |lines| ==> TexLine(env, Entered(d), fuel, lines[i]) == Step(Ok(ls[i]), Entered(d)));
    }
    if text == "" {
      assert lines == [] && s == Step(Ok([]), d);
      assert JoinLines([]) + "\n" == "\n";
    }
  }

  /** line_to_tex gives the same outcome before include_doc's counter exists
      as with the counter at 1, and a normal return with the counter set up
      leaves it where it was. */
  lemma TexLineEntered(env: Env, d: nat, fuel: nat, line: string)
    ensures TexLine(env, d, fuel, line).result == TexLine(env, Entered(d), fuel, line).result
    ensures TexLine(env, d, fuel, line).result.Ok? ==> TexLine(env, Entered(d), fuel, line).depth == Entered(d)
  {
    if !StartsWith(line, "#") && StartsWith(line, EmbedOpen) {
      assert Entered(Entered(d)) == Entered(d);
    }
  }

  /** After a normal return of the comprehension, every result is what
      line_to_tex gives for its own line with the counter set up. */
  lemma TexLinesEach(env: Env, d: nat, fuel: nat, lines: seq<string>)
    requires TexLines(env, d, fuel, lines).result.Ok?
    ensures var v := TexLines(env, d, fuel, lines).result.value;
      forall i :: 0 <= i < |lines| ==> TexLine(env, Entered(d), fuel, lines[i]) == Step(Ok(v[i]), Entered(d))
  {
    var v := TexLines(env, d, fuel, lines).result.value;
    assert TexLines(env, Entered(d), fuel, lines).result == Ok(v) by {
      TexLinesEntered(env, d, fuel, lines);
    }
    forall i | 0 <= i < |lines|
      ensures TexLine(env, Entered(d), fuel, lines[i]) == Step(Ok(v[i]), Entered(d))
    {
      TexLinesAt(env, Entered(d), fuel, lines, i);
    }
  }

  /** The comprehension gives the same outcome before include_doc's counter
      exists as with the counter at 1. */
  lemma {:induction false} TexLinesEntered(env: Env, d: nat, fuel: nat, lines: seq<string>)
    ensures TexLines(env, d, fuel, lines).result == TexLines(env, Entered(d), fuel, lines).result
    decreases |lines|
  {
    if lines != [] {
      var h := TexLine(env, d, fuel, lines[0]);
      var g := TexLine(env, Entered(d), fuel, lines[0]);
      assert h.result == g.result && (h.result.Ok? ==> g.depth == Entered(d)) by {
        TexLineEntered(env, d, fuel, lines[0]);
      }
      if h.result.Ok? {
        assert Entered(h.depth) == Entered(d);
        TexLinesEntered(env, h.depth, fuel, lines[1..]);
      }
    }
  }

  /** line_to_tex of one line gives `out` and leaves the counter at `c`. */
  ghost predicate LineGives(env: Env, c: nat, fuel: nat, line: string, out: string)
  {
    TexLine(env, c, fuel, line) == Step(Ok(out), c)
  }

  /** The `i`-th result of the comprehension once the counter is set up, by
      induction on `i`. */
  lemma {:induction false} TexLinesAt(env: Env, c: nat, fuel: nat, lines: seq<string>, i: nat)
    requires c >= 1 && i < |lines| && TexLines(env, c, fuel, lines).result.Ok?
    ensures LineGives(env, c, fuel, lines[i], TexLines(env, c, fuel, lines).result.value[i])
    decreases i
  {
    TexLinesUncons(env, c, fuel, lines);
    if i > 0 {
      var h := TexLine(env, c, fuel, lines[0]);
      var t := TexLines(env, h.depth, fuel, lines[1..]).result.value;
      assert h.depth == c;
      assert lines[1..][i - 1] == lines[i];
      assert TexLines(env, c, fuel, lines).result.value[i] == t[i - 1];
      TexLinesAt(env, c, fuel, lines[1..], i - 1);
    }
  }

  /** A comprehension that returned normally: its first line returned
      normally, and so did the rest, from the counter the first line left. */
  lemma TexLinesUncons(env: Env, d: nat, fuel: nat, lines: seq<string>)
    requires lines != [] && TexLines(env, d, fuel, lines).result.Ok?
    ensures var h := TexLine(env, d, fuel, lines[0]);
      var t := TexLines(env, h.depth, fuel, lines[1..]);
      && h.result.Ok? && t.result.Ok?
      && TexLines(env, d, fuel, lines).result.value == [h.result.value] + t.result.value
  {
  }

  /** The list comprehension of obsidian_to_tex: the lines in order, each
      seeing the counter the previous one left. */
  function TexLines(env: Env, d: nat, fuel: nat, lines: seq<string>): (s: Step<seq<string>>)
    ensures s.depth >= d
    ensures s.result.Ok? ==> Restored(d, s.depth) && |s.result.value| == |lines|
    decreases fuel, 2, |lines|
  {
    if lines == [] then Step(Ok([]), d)
    else
      var h := TexLine(env, d, fuel, lines[0]);
      match h.result
      case Err(e) => Step(Err(e), h.depth)
      case Ok(first) =>
        var t := TexLines(env, h.depth, fuel, lines[1..]);
        match t.result
        case Ok(rest) => Step(Ok([first] + rest), t.depth)
        case Err(e) => Step(Err(e), t.depth)
  }

  /** line_to_tex: headings become sectioning commands, embeds are included,
      every other line is escaped. */
  function TexLine(env: Env, d: nat, fuel: nat, line: string): (s: Step<string>)
    ensures s.depth >= d
    ensures s.result.Ok? ==> Restored(d, s.depth)
    decreases fuel, 1, 0
  {
    if StartsWith(line, "#") then Step(Ok(LineToSection(line)), d)
    else if StartsWith(line, EmbedOpen) then Include(env, d, fuel, line)
    else Step(Ok(Escape(line)), d)
  }

  /** include_doc. A name with a suffix is an image: its path goes into an
      `\includegraphics`. Any other name is a note: `.md` is appended, the
      file is found and read, its headings are shifted down by the counter,
      and the text is converted with the counter one higher. Running out of
      `fuel` stands for the interpreter's recursion limit; it strikes after
      the counter was raised. After an exception the counter is not lowered
      again. */
  function Include(env: Env, d: nat, fuel: nat, line: string): (s: Step<string>)
    ensures s.depth >= d && s.depth >= 1
    ensures s.result.Ok? ==> Restored(d, s.depth)
    decreases fuel, 0, 0
  {
    var n := Entered(d);
    match ParseEmbed(line)
    case None => Step(Err(MalformedEmbed(line)), n)
    case Some(name) =>
      if HasSuffix(name, env.sep) then
        match Locate(env.walk, name, env.sep)
        case Ok(path) => Step(Ok(IncludeImage(path, env.sep)), n)
        case Err(e) => Step(Err(e), n)
      else
        match Locate(env.walk, name + ".md", env.sep)
        case Err(e) => Step(Err(e), n)
        case Ok(path) =>
          if path !in env.files then Step(Err(FileNotFound(path)), n)
          else if fuel == 0 then Step(Err(RecursionLimit), n + 1)
          else Nested(env, n, fuel - 1, env.files[path])
  }

  /** The second half of include_doc for a note: its headings shifted down by
      the counter `n`, the text converted with the counter at `n + 1`, and
      the counter lowered again when the conversion returns normally. */
  function Nested(env: Env, n: nat, fuel: nat, content: string): (s: Step<string>)
    ensures s.depth >= n
    ensures s.result.Ok? ==> s.depth == n
    ensures s.result.Err? ==> s.depth >= n + 1
    decreases fuel, 4, 0
  {
    var s := Tex(env, n + 1, fuel, JoinLines(ShiftHeadings(SplitLines(content), n)));
    if s.result.Ok? then Step(s.result, s.depth - 1) else s
  }

  /** The lines of a text without embeds, rendered one by one. */
  function PlainLines(lines: seq<string>): seq<string>
  {
    if lines == [] then [] else [PlainLine(lines[0])] + PlainLines(lines[1..])
  }

  /** The rendering a heading shift by `n` is meant to give: a heading of
      depth `k` becomes the command for depth `k + n`, any other line is
      escaped. */
  function ShiftedLine(line: string, n: nat): string
  {
    if StartsWith(line, "#") then
      SectionFor(MatchHeading(line).depth + n, Escape(MatchHeading(line).text))
    else Escape(line)
  }

  function ShiftedLines(lines: seq<string>, n: nat): (r: seq<string>)
    ensures |r| == |lines| && forall i :: 0 <= i < |lines| ==> r[i] == ShiftedLine(lines[i], n)
  {
    if lines == [] then [] else [ShiftedLine(lines[0], n)] + ShiftedLines(lines[1..], n)
  }

  // ---------------------------------------------------------------------
  // Properties of the line functions

  /** A shifted heading is `n` levels deeper and keeps its text; it renders
      as the command for its original depth plus `n`. */
  lemma ShiftedHeading(line: string, n: nat)
    requires StartsWith(line, "#")
    ensures StartsWith(ShiftHeading(line, n), "#")
    ensures MatchHeading(ShiftHeading(line, n)) ==
      HeadingMatch(MatchHeading(line).depth + n, MatchHeading(line).text)
    ensures PlainLine(ShiftHeading(line, n)) ==
      SectionFor(MatchHeading(line).depth + n, Escape(MatchHeading(line).text))
  {
    var t := Hashes(n) + line;
    assert ShiftHeading(line, n) == t;
    assert StartsWith(t, "#") by {
      assert t[0] == '#' by {
        if n == 0 {
          assert t[0] == line[0];
        }
      }
    }
    assert MatchHeading(t) == HeadingMatch(MatchHeading(line).depth + n, MatchHeading(line).text) by {
      MatchShifted(n, line);
    }
    assert PlainLine(t) == LineToSection(t);
  }

  /** Rendering a shifted line gives the rendering the shift is meant to
      give. */
  lemma ShiftedRendering(line: string, n: nat)
    ensures PlainLine(ShiftHeading(line, n)) == ShiftedLine(line, n)
  {
    if StartsWith(line, "#") {
      ShiftedHeading(line, n);
    }
  }

  /** The shift of one line adds no line break, makes no embed and removes
      none, and leaves the empty line empty and any other line non-empty. */
  lemma ShiftLine(line: string, n: nat)
    ensures '\n' !in line ==> '\n' !in ShiftHeading(line, n)
    ensures StartsWith(ShiftHeading(line, n), EmbedOpen) <==> StartsWith(line, EmbedOpen)
    ensures ShiftHeading(line, n) == "" <==> line == ""
  {
    if StartsWith(line, "#") {
      var t := Hashes(n) + line;
      assert forall c :: c in t ==> c in Hashes(n) || c in line;
      ShiftedHeading(line, n);
      HeadingNotEmbed(line);
      HeadingNotEmbed(t);
    }
  }

  /** Rendering shifted lines one by one is the intended rendering. */
  lemma {:induction false} RenderShifted(lines: seq<string>, n: nat)
    ensures PlainLines(ShiftHeadings(lines, n)) == ShiftedLines(lines, n)
  {
    if lines != [] {
      RenderShifted(lines[1..], n);
      ShiftedRendering(lines[0], n);
    }
  }

  /** Shifting whole texts: no line break appears and no embed appears or
      disappears. */
  lemma {:induction false} ShiftKeepsLines(lines: seq<string>, n: nat)
    requires forall i :: 0 <= i < |lines| ==> '\n' !in lines[i]
    ensures var r := ShiftHeadings(lines, n);
      && |r| == |lines|
      && (forall i :: 0 <= i < |r| ==> '\n' !in r[i])
      && (NoEmbeds(lines) ==> NoEmbeds(r))
      && (lines != [] ==> r[0] == ShiftHeading(lines[0], n))
  {
    if lines != [] {
      var r := ShiftHeadings(lines, n);
      var tail := ShiftHeadings(lines[1..], n);
      assert r == [ShiftHeading(lines[0], n)] + tail;
      ShiftLine(lines[0], n);
      ShiftKeepsLines(lines[1..], n);
      forall i | 0 <= i < |r|
        ensures '\n' !in r[i]
        ensures NoEmbeds(lines) ==> !StartsWith(r[i], EmbedOpen)
      {
        if i > 0 {
          assert r[i] == tail[i - 1];
          assert lines[1..][i - 1] == lines[i];
        }
      }
    }
  }

  /** The shift and the loss of a trailing empty line commute. */
  lemma {:induction false} ShiftTrimLast(lines: seq<string>, n: nat)
    ensures TrimLast(ShiftHeadings(lines, n)) == ShiftHeadings(TrimLast(lines), n)
  {
    if lines != [] {
      var k := |lines| - 1;
      ShiftSnoc(lines[..k], lines[k], n);
      assert lines == lines[..k] + [lines[k]];
      ShiftLine(lines[k], n);
    }
  }

  lemma {:induction false} ShiftSnoc(lines: seq<string>, x: string, n: nat)
    ensures ShiftHeadings(lines + [x], n) == ShiftHeadings(lines, n) + [ShiftHeading(x, n)]
  {
    if lines != [] {
      ShiftSnoc(lines[1..], x, n);
      assert (lines + [x])[1..] == lines[1..] + [x];
    }
  }

  /** Losing the trailing empty line keeps a text free of embeds. */
  lemma TrimNoEmbeds(lines: seq<string>)
    requires NoEmbeds(lines)
    ensures NoEmbeds(TrimLast(lines))
  {
    var t := TrimLast(lines);
    forall i | 0 <= i < |t| ensures !StartsWith(t[i], EmbedOpen) {
      assert t[i] == lines[i];
    }
  }

  // ---------------------------------------------------------------------
  // Properties of the conversion

  /** A line that is not an embed is rendered on its own. */
  lemma PlainTexLine(env: Env, d: nat, fuel: nat, line: string)
    requires !StartsWith(line, EmbedOpen)
    ensures TexLine(env, d, fuel, line) == Step(Ok(PlainLine(line)), d)
  {
  }

  /** Lines without embeds are rendered one by one, and the counter is left
      alone. */
  lemma {:induction false} FlatLines(env: Env, d: nat, fuel: nat, lines: seq<string>)
    requires NoEmbeds(lines)
    ensures TexLines(env, d, fuel, lines) == Step(Ok(PlainLines(lines)), d)
    decreases |lines|
  {
    if lines != [] {
      assert NoEmbeds(lines[1..]) by {
        forall i | 0 <= i < |lines| - 1 ensures !StartsWith(lines[1..][i], EmbedOpen) {
          assert lines[1..][i] == lines[i + 1];
        }
      }
      assert TexLines(env, d, fuel, lines[1..]) == Step(Ok(PlainLines(lines[1..])), d) by {
        FlatLines(env, d, fuel, lines[1..]);
      }
      assert TexLine(env, d, fuel, lines[0]) == Step(Ok(PlainLine(lines[0])), d) by {
        PlainTexLine(env, d, fuel, lines[0]);
      }
    }
  }

  /** A text without embeds: its lines rendered one by one, each followed by
      a line break; the counter is left alone. */
  lemma FlatText(env: Env, d: nat, fuel: nat, text: string)
    requires NoEmbeds(SplitLines(text))
    ensures Tex(env, d, fuel, text) == Step(Ok(JoinLines(PlainLines(SplitLines(text))) + "\n"), d)
  {
    FlatLines(env, d, fuel, SplitLines(text));
  }

  /** The three ways include_doc can go, one lemma each. */
  lemma IncludeUnparsed(env: Env, d: nat, fuel: nat, line: string)
    requires ParseEmbed(line).None?
    ensures Include(env, d, fuel, line) == Step(Err(MalformedEmbed(line)), Entered(d))
  {
  }

  lemma IncludeImageCase(env: Env, d: nat, fuel: nat, line: string, name: string)
    requires ParseEmbed(line) == Some(name) && HasSuffix(name, env.sep)
    ensures Include(env, d, fuel, line) == Step(
      match Locate(env.walk, name, env.sep)
      case Ok(path) => Ok(IncludeImage(path, env.sep))
      case Err(e) => Err(e), Entered(d))
  {
  }

  lemma IncludeNoteCase(env: Env, d: nat, fuel: nat, line: string, name: string, path: string)
    requires ParseEmbed(line) == Some(name) && !HasSuffix(name, env.sep)
    requires Locate(env.walk, name + ".md", env.sep) == Ok(path) && path in env.files
    ensures Include(env, d, 0, line) == Step(Err(RecursionLimit), Entered(d) + 1)
    ensures Include(env, d, fuel + 1, line) == Nested(env, Entered(d), fuel, env.files[path])
  {
  }

  lemma IncludeNoteMissing(env: Env, d: nat, fuel: nat, line: string, name: string)
    requires ParseEmbed(line) == Some(name) && !HasSuffix(name, env.sep)
    requires Locate(env.walk, name + ".md", env.sep).Ok? ==> Locate(env.walk, name + ".md", env.sep).value !in env.files
    ensures Include(env, d, fuel, line) == Step(Err(
      match Locate(env.walk, name + ".md", env.sep)
      case Ok(path) => FileNotFound(path)
      case Err(e) => e), Entered(d))
  {
  }

  /** Converting a note that embeds nothing else, with the counter at `n`:
      the note's lines, less a trailing empty one, each rendered on its own
      with every heading `n` levels deeper; the counter is back at `n`. */
  lemma NestedFlat(env: Env, n: nat, fuel: nat, content: string)
    requires NoEmbeds(SplitLines(content))
    ensures Nested(env, n, fuel, content) ==
      Step(Ok(JoinLines(ShiftedLines(TrimLast(SplitLines(content)), n)) + "\n"), n)
  {
    var lines := SplitLines(content);
    var text := JoinLines(ShiftHeadings(lines, n));
    var kept := ShiftHeadings(TrimLast(lines), n);
    assert SplitLines(text) == kept by {
      ShiftKeepsLines(lines, n);
      SplitLinesJoin(ShiftHeadings(lines, n));
      ShiftTrimLast(lines, n);
    }
    assert NoEmbeds(kept) by {
      TrimNoEmbeds(lines);
      ShiftKeepsLines(TrimLast(lines), n);
    }
    assert Tex(env, n + 1, fuel, text) == Step(Ok(JoinLines(ShiftedLines(TrimLast(lines), n)) + "\n"), n + 1) by {
      FlatText(env, n + 1, fuel, text);
      RenderShifted(TrimLast(lines), n);
    }
  }

  /** Every line of a note converted at counter `n`, after the heading shift
      and the re-split, is rendered by line_to_tex with the counter at
      `n + 1`: an embed inside it shifts its own note's headings by `n + 1`,
      at whatever depth of nesting. */
  lemma NestedEachLine(env: Env, n: nat, fuel: nat, content: string)
    ensures var s := Nested(env, n, fuel, content);
      var lines := SplitLines(JoinLines(ShiftHeadings(SplitLines(content), n)));
      s.result.Ok? ==> exists ls :: (|ls| == |lines| && s.result.value == JoinLines(ls) + "\n" &&
        forall i :: 0 <= i < |lines| ==> TexLine(env, n + 1, fuel, lines[i]) == Step(Ok(ls[i]), n + 1))
  {
    var text := JoinLines(ShiftHeadings(SplitLines(content), n));
    assert Entered(n + 1) == n + 1;
    TexShape(env, n + 1, fuel, text);
  }

  /** Embedding a note that embeds nothing else: the counter `D` that
      include_doc set up deepens every heading of the note by `D`, and is
      where include_doc left it once the note is converted. The conversion
      needs one level of `fuel`. */
  lemma IncludeFlatNote(env: Env, d: nat, fuel: nat, name: string, path: string)
    requires '\n' !in name && !HasSuffix(name, env.sep)
    requires Locate(env.walk, name + ".md", env.sep) == Ok(path)
    requires path in env.files
    requires NoEmbeds(SplitLines(env.files[path]))
    ensures Include(env, d, fuel + 1, EmbedOpen + name + "]]") ==
      Step(Ok(JoinLines(ShiftedLines(TrimLast(SplitLines(env.files[path])), Entered(d))) + "\n"), Entered(d))
  {
    var line := EmbedOpen + name + "]]";
    assert ParseEmbed(line) == Some(name) by {
      EmbedRoundTrip(name);
    }
    IncludeNoteCase(env, d, fuel, line, name, path);
    NestedFlat(env, Entered(d), fuel, env.files[path]);
  }

  /** The first embed of a run: include_doc creates its counter at 1, so a
      note without embeds of its own comes out with every heading one level
      deeper, and the counter stays at 1. */
  lemma FirstEmbedShiftsByOne(env: Env, fuel: nat, name: string, path: string)
    requires '\n' !in name && !HasSuffix(name, env.sep)
    requires Locate(env.walk, name + ".md", env.sep) == Ok(path)
    requires path in env.files
    requires NoEmbeds(SplitLines(env.files[path]))
    ensures Include(env, 0, fuel + 1, EmbedOpen + name + "]]") ==
      Step(Ok(JoinLines(ShiftedLines(TrimLast(SplitLines(env.files[path])), 1)) + "\n"), 1)
  {
    IncludeFlatNote(env, 0, fuel, name, path);
  }

  /** The embed `![[name]]` of a note that is found and read converts the
      note one level deeper, with the counter include_doc set up. */
  lemma IncludeNoteEmbed(env: Env, d: nat, fuel: nat, name: string, path: string)
    requires '\n' !in name && !HasSuffix(name, env.sep)
    requires Locate(env.walk, name + ".md", env.sep) == Ok(path) && path in env.files
    ensures Include(env, d, fuel + 1, EmbedOpen + name + "]]") == Nested(env, Entered(d), fuel, env.files[path])
  {
    var line := EmbedOpen + name + "]]";
    assert ParseEmbed(line) == Some(name) by {
      EmbedRoundTrip(name);
    }
    IncludeNoteCase(env, d, fuel, line, name, path);
  }

  /** A text of one line, without a line break, converts to that line's
      rendering followed by a line break. */
  lemma TexOneLine(env: Env, c: nat, fuel: nat, line: string)
    requires '\n' !in line && line != ""
    requires TexLine(env, c, fuel, line).result.Ok?
    ensures var h := TexLine(env, c, fuel, line);
      Tex(env, c, fuel, line) == Step(Ok(h.result.value + "\n"), h.depth)
  {
    assert SplitLines(line) == [line] by {
      FirstLine(line, "");
      SplitSingle(line);
    }
    var h := TexLine(env, c, fuel, line);
    assert TexLines(env, c, fuel, [line]) == Step(Ok([h.result.value]), h.depth) by {
      assert [line][0] == line && [line][1..] == [];
      assert TexLines(env, h.depth, fuel, []) == Step(Ok([]), h.depth);
      assert [h.result.value] + [] == [h.result.value];
    }
    assert JoinLines([h.result.value]) == h.result.value;
  }

  /** Converting, with the counter at `n`, a note that holds only the embed
      of note `b`, which embeds nothing: the headings of `b` come out
      `n + 1` levels deeper, and the counter is back at `n`. */
  lemma NestedEmbedOnly(env: Env, n: nat, fuel: nat, b: string, pathB: string)
    requires '\n' !in b && !HasSuffix(b, env.sep)
    requires Locate(env.walk, b + ".md", env.sep) == Ok(pathB)
    requires pathB in env.files && NoEmbeds(SplitLines(env.files[pathB]))
    ensures Nested(env, n, fuel + 1, EmbedOpen + b + "]]") ==
      Step(Ok(JoinLines(ShiftedLines(TrimLast(SplitLines(env.files[pathB])), n + 1)) + "\n" + "\n"), n)
  {
    var line := EmbedOpen + b + "]]";
    var x := JoinLines(ShiftedLines(TrimLast(SplitLines(env.files[pathB])), n + 1)) + "\n";
    assert line[0] == '!' && '\n' !in line;
    assert JoinLines(ShiftHeadings(SplitLines(line), n)) == line by {
      FirstLine(line, "");
      SplitSingle(line);
      assert ShiftHeadings([line], n) == [line];
    }
    assert TexLine(env, n + 1, fuel + 1, line) == Step(Ok(x), n + 1) by {
      IncludeFlatNote(env, n + 1, fuel, b, pathB);
    }
    TexOneLine(env, n + 1, fuel + 1, line);
  }

  /** Two levels of embedding: note `a` holds only the embed of note `b`, and
      `b` embeds nothing. The headings of `b` come out `Entered(d) + 1`
      levels deeper, one more than those of `a` would. The inner conversion
      of `b` is followed by the line break that ends the only line of `a`,
      and the counter is back where include_doc set it. */
  lemma IncludeTwoLevels(env: Env, d: nat, fuel: nat, a: string, pathA: string, b: string, pathB: string)
    requires '\n' !in a && !HasSuffix(a, env.sep)
    requires Locate(env.walk, a + ".md", env.sep) == Ok(pathA)
    requires '\n' !in b && !HasSuffix(b, env.sep)
    requires Locate(env.walk, b + ".md", env.sep) == Ok(pathB)
    requires pathA in env.files && env.files[pathA] == EmbedOpen + b + "]]"
    requires pathB in env.files && NoEmbeds(SplitLines(env.files[pathB]))
    ensures Include(env, d, fuel + 2, EmbedOpen + a + "]]") ==
      Step(Ok(JoinLines(ShiftedLines(TrimLast(SplitLines(env.files[pathB])), Entered(d) + 1)) + "\n" + "\n"), Entered(d))
  {
    IncludeNoteEmbed(env, d, fuel + 1, a, pathA);
    NestedEmbedOnly(env, Entered(d), fuel, b, pathB);
  }

  /** Embedding an image: the counter is set up, the file is looked for by
      its own name, and the command names the first directory that lists
      it; when none does, FileNotFound names the file. */
  lemma IncludeImageEmbed(env: Env, d: nat, fuel: nat, name: string)
    requires '\n' !in name && HasSuffix(name, env.sep)
    ensures var s := Include(env, d, fuel, EmbedOpen + name + "]]");
      && s.depth == Entered(d)
      && (s.result.Err? <==> forall i :: 0 <= i < |env.walk| ==> name !in env.walk[i].files)
      && (s.result.Err? ==> s.result.error == FileNotFound(name))
      && (s.result.Ok? ==> exists i :: (FirstHit(env.walk, name, i) &&
            s.result.value == IncludeImage(Join(env.walk[i].root, name, env.sep), env.sep)))
  {
    var line := EmbedOpen + name + "]]";
    assert ParseEmbed(line) == Some(name) by {
      EmbedRoundTrip(name);
    }
    IncludeImageCase(env, d, fuel, line, name);
    LocateFirstHit(env.walk, name, env.sep);
  }

  /** A note is looked for under its name with `.md` appended. */
  lemma IncludeMissingNote(env: Env, d: nat, fuel: nat, name: string)
    requires '\n' !in name && !HasSuffix(name, env.sep)
    requires forall i :: 0 <= i < |env.walk| ==> name + ".md" !in env.walk[i].files
    ensures Include(env, d, fuel, EmbedOpen + name + "]]") == Step(Err(FileNotFound(name + ".md")), Entered(d))
  {
    var line := EmbedOpen + name + "]]";
    assert ParseEmbed(line) == Some(name) by {
      EmbedRoundTrip(name);
    }
    LocateFirstHit(env.walk, name + ".md", env.sep);
  }

  /** An embed line without `]]` raises with the line itself, after the
      counter was set up. */
  lemma MalformedEmbedLine(env: Env, d: nat, fuel: nat, line: string)
    requires StartsWith(line, EmbedOpen)
    requires forall j :: !CloseAt(TakeLine(line[3..]), j)
    ensures TexLine(env, d, fuel, line) == Step(Err(MalformedEmbed(line)), Entered(d))
  {
    assert !StartsWith(line, "#") by {
      assert line[0] == '!';
    }
    assert Include(env, d, fuel, line) == Step(Err(MalformedEmbed(line)), Entered(d)) by {
      UnclosedEmbed(line);
      IncludeUnparsed(env, d, fuel, line);
    }
  }

  /** A failing first line fails the whole text, with the counter it left. */
  lemma FirstLineFails(env: Env, d: nat, fuel: nat, text: string, line: string)
    requires SplitLines(text) != [] && SplitLines(text)[0] == line
    requires TexLine(env, d, fuel, line).result.Err?
    ensures Tex(env, d, fuel, text) == TexLine(env, d, fuel, line)
  {
    var lines := SplitLines(text);
    assert TexLines(env, d, fuel, lines) ==
      Step(Err(TexLine(env, d, fuel, line).result.error), TexLine(env, d, fuel, line).depth);
  }

  /** A note whose first line embeds the note itself never returns: each
      level raises the counter once and, since the exception skips every
      decrement, the counter ends `fuel + 1` above where include_doc set it. */
  lemma {:induction false} SelfEmbed(env: Env, d: nat, fuel: nat, name: string, path: string, rest: string)
    requires '\n' !in name && !HasSuffix(name, env.sep)
    requires Locate(env.walk, name + ".md", env.sep) == Ok(path)
    requires path in env.files && env.files[path] == EmbedOpen + name + "]]" + rest
    requires rest == [] || rest[0] == '\n'
    ensures Include(env, d, fuel, EmbedOpen + name + "]]") == Step(Err(RecursionLimit), Entered(d) + fuel + 1)
    decreases fuel, 2
  {
    var line := EmbedOpen + name + "]]";
    assert ParseEmbed(line) == Some(name) by {
      EmbedRoundTrip(name);
    }
    if fuel == 0 {
      IncludeNoteCase(env, d, 0, line, name, path);
    } else {
      var f := fuel - 1;
      var n := Entered(d);
      assert Include(env, d, fuel, line) == Nested(env, n, f, env.files[path]) by {
        IncludeNoteCase(env, d, f, line, name, path);
      }
      assert Nested(env, n, f, env.files[path]) == Step(Err(RecursionLimit), n + f + 2) by {
        SelfNested(env, n, f, name, path, rest);
      }
    }
  }

  /** The inner step of SelfEmbed: converting the note with the counter at
      `n` fails at its first line, where the note embeds itself again. */
  lemma {:induction false} SelfNested(env: Env, n: nat, fuel: nat, name: string, path: string, rest: string)
    requires '\n' !in name && !HasSuffix(name, env.sep)
    requires Locate(env.walk, name + ".md", env.sep) == Ok(path)
    requires path in env.files && env.files[path] == EmbedOpen + name + "]]" + rest
    requires rest == [] || rest[0] == '\n'
    ensures Nested(env, n, fuel, env.files[path]) == Step(Err(RecursionLimit), n + fuel + 2)
    decreases fuel, 3
  {
    var line := EmbedOpen + name + "]]";
    var lines := SplitLines(env.files[path]);
    var text := JoinLines(ShiftHeadings(lines, n));
    assert lines != [] && lines[0] == line by {
      assert '\n' !in line;
      FirstLine(line, rest);
    }
    assert SplitLines(text) != [] && SplitLines(text)[0] == line by {
      assert line[0] == '!';
      FirstShiftedLine(lines, n);
    }
    assert Tex(env, n + 1, fuel, text) == Step(Err(RecursionLimit), n + fuel + 2) by {
      assert TexLine(env, n + 1, fuel, line) == Step(Err(RecursionLimit), n + fuel + 2) by {
        assert line[0] == '!';
        SelfEmbed(env, n + 1, fuel, name, path, rest);
      }
      FirstLineFails(env, n + 1, fuel, text, line);
    }
  }

  /** A first line that is neither a heading nor empty survives the shift
      and the join and re-split of include_doc unchanged. */
  lemma FirstShiftedLine(lines: seq<string>, n: nat)
    requires lines != [] && lines[0] != "" && !StartsWith(lines[0], "#")
    requires forall i :: 0 <= i < |lines| ==> '\n' !in lines[i]
    ensures SplitLines(JoinLines(ShiftHeadings(lines, n))) != []
    ensures SplitLines(JoinLines(ShiftHeadings(lines, n)))[0] == lines[0]
  {
    var shifted := ShiftHeadings(lines, n);
    ShiftKeepsLines(lines, n);
    SplitLinesJoin(shifted);
    assert TrimLast(shifted)[0] == lines[0];
  }
}
