/** The converter as the program runs it: obsidian_to_tex, line_to_tex and
    include_doc as methods of one object whose field is include_doc's
    persistent counter. Each method is proved to do what the function of
    the same name in Transclusion describes. */
module ObsidianToLatex {
  import opened Common
  import opened Lines
  import opened Escaping
  import opened Headings
  import opened Paths
  import opened Embeds
  import opened Transclusion

  /** The lines converted so far, put in front of what the rest converts to. */
  function Prepend(done: seq<string>, s: Step<seq<string>>): Step<seq<string>>
  {
    match s.result
    case Ok(rest) => Step(Ok(done + rest), s.depth)
    case Err(e) => Step(Err(e), s.depth)
  }

  lemma PrependNil(s: Step<seq<string>>)
    ensures Prepend([], s) == s
  {
    match s.result
    case Ok(rest) => assert [] + rest == rest;
    case Err(e) =>
  }

  /** The comprehension's first line, then the rest. */
  lemma TexLinesCons(env: Env, d: nat, fuel: nat, lines: seq<string>)
    requires lines != []
    ensures var h := TexLine(env, d, fuel, lines[0]);
      TexLines(env, d, fuel, lines) ==
        if h.result.Err? then Step(Err(h.result.error), h.depth)
        else Prepend([h.result.value], TexLines(env, h.depth, fuel, lines[1..]))
  {
  }

  lemma PrependTwice(out: seq<string>, x: string, s: Step<seq<string>>)
    ensures Prepend(out, Prepend([x], s)) == Prepend(out + [x], s)
  {
    if s.result.Ok? {
      assert out + ([x] + s.result.value) == (out + [x]) + s.result.value;
    }
  }

  /** One more line of the comprehension: its outcome either ends the
      conversion or joins the lines converted so far. */
  lemma PrependLine(env: Env, d: nat, fuel: nat, out: seq<string>, lines: seq<string>, i: nat, h: Step<string>)
    requires i < |lines| && h == TexLine(env, d, fuel, lines[i])
    ensures h.result.Err? ==> Prepend(out, TexLines(env, d, fuel, lines[i..])) == Step(Err(h.result.error), h.depth)
    ensures h.result.Ok? ==>
      Prepend(out, TexLines(env, d, fuel, lines[i..])) ==
      Prepend(out + [h.result.value], TexLines(env, h.depth, fuel, lines[i + 1..]))
  {
    assert lines[i..][0] == lines[i] && lines[i..][1..] == lines[i + 1..];
    TexLinesCons(env, d, fuel, lines[i..]);
    if h.result.Ok? {
      PrependTwice(out, h.result.value, TexLines(env, h.depth, fuel, lines[i + 1..]));
    }
  }

  /** The comprehension done: the text is its converted lines joined. */
  lemma TexDone(env: Env, d: nat, fuel: nat, text: string, out: seq<string>, after: nat)
    requires TexLines(env, d, fuel, SplitLines(text)) == Prepend(out, Step(Ok([]), after))
    ensures Tex(env, d, fuel, text) == Step(Ok(JoinLines(out) + "\n"), after)
  {
    assert out + [] == out;
  }

  /** The converted note's outcome, with the counter lowered again after a
      normal return, is the second half of include_doc. */
  lemma NoteConverted(env: Env, n: nat, fuel: nat, content: string, r: Result<string>, after: nat)
    requires Step(r, after) == Tex(env, n + 1, fuel, JoinLines(ShiftHeadings(SplitLines(content), n)))
    ensures r.Ok? ==> after >= 1 && Step(r, after - 1) == Nested(env, n, fuel, content)
    ensures r.Err? ==> Step(r, after) == Nested(env, n, fuel, content)
  {
  }

  /** Each shifted line is its own line shifted. */
  lemma {:induction false} ShiftHeadingsEach(lines: seq<string>, n: nat)
    ensures |ShiftHeadings(lines, n)| == |lines|
    ensures forall i :: 0 <= i < |lines| ==> ShiftHeadings(lines, n)[i] == ShiftHeading(lines[i], n)
  {
    if lines != [] {
      ShiftHeadingsEach(lines[1..], n);
      var r := ShiftHeadings(lines, n);
      forall i | 0 < i < |lines| ensures r[i] == ShiftHeading(lines[i], n) {
        assert lines[1..][i - 1] == lines[i];
      }
    }
  }

  /** The loop of include_doc that puts `n` more `#` in front of every
      heading line of the note, rewriting the list of lines in place. */
  method ShiftNote(lines: seq<string>, n: nat) returns (shifted: seq<string>)
    ensures shifted == ShiftHeadings(lines, n)
  {
    shifted := lines;
    var i := 0;
    while i < |shifted|
      invariant 0 <= i <= |shifted| == |lines|
      invariant forall j :: 0 <= j < i ==> shifted[j] == ShiftHeading(lines[j], n)
      invariant forall j :: i <= j < |shifted| ==> shifted[j] == lines[j]
    {
      if StartsWith(shifted[i], "#") {
        shifted := shifted[i := Hashes(n) + shifted[i]];
      }
      i := i + 1;
    }
    ShiftHeadingsEach(lines, n);
  }

  class Converter {
    /** The vault the converter reads: its walk, its files, the separator. */
    const env: Env
    /** include_doc's counter; 0 while its dictionary is still empty. */
    var depth: nat

    /** A fresh process: the counter's dictionary is empty. */
    constructor (env: Env)
      ensures this.env == env && depth == 0
    {
      this.env := env;
      depth := 0;
    }

    /** obsidian_to_tex: converts the lines in order and joins them, each
        followed by a line break; stops at the first exception. */
    method ObsidianToTex(text: string, fuel: nat) returns (r: Result<string>)
      modifies this
      ensures Step(r, depth) == Tex(env, old(depth), fuel, text)
      decreases fuel, 3, 0
    {
      var lines := SplitLines(text);
      var out: seq<string> := [];
      var i := 0;
      assert lines[0..] == lines;
      PrependNil(TexLines(env, depth, fuel, lines));
      while i < |lines|
        invariant 0 <= i <= |lines|
        invariant Prepend(out, TexLines(env, depth, fuel, lines[i..])) == TexLines(env, old(depth), fuel, lines)
      {
        ghost var before := depth;
        var t := LineToTex(lines[i], fuel);
        PrependLine(env, before, fuel, out, lines, i, Step(t, depth));
        if t.Err? {
          return Err(t.error);
        }
        out := out + [t.value];
        i := i + 1;
      }
      assert lines[i..] == [];
      TexDone(env, old(depth), fuel, text, out, depth);
      return Ok(JoinLines(out) + "\n");
    }

    /** line_to_tex: a heading becomes a sectioning command, an embed is
        included, any other line is escaped. */
    method LineToTex(line: string, fuel: nat) returns (r: Result<string>)
      modifies this
      ensures Step(r, depth) == TexLine(env, old(depth), fuel, line)
      decreases fuel, 2, 0
    {
      if StartsWith(line, "#") {
        return Ok(LineToSection(line));
      }
      if StartsWith(line, EmbedOpen) {
        r := IncludeDoc(line, fuel);
        return;
      }
      return Ok(Escape(line));
    }

    /** include_doc: sets the counter up on first use, parses the embed and
        includes an image, or hands a note to IncludeNote. */
    method IncludeDoc(line: string, fuel: nat) returns (r: Result<string>)
      modifies this
      ensures Step(r, depth) == Include(env, old(depth), fuel, line)
      decreases fuel, 1, 0
    {
      ghost var d := depth;
      if depth == 0 {
        depth := 1;
      }
      var parsed := ParseEmbed(line);
      if parsed.None? {
        IncludeUnparsed(env, d, fuel, line);
        return Err(MalformedEmbed(line));
      }
      var name := parsed.value;
      if HasSuffix(name, env.sep) {
        IncludeImageCase(env, d, fuel, line, name);
        var image := FindFile(env.walk, name, env.sep);
        if image.Err? {
          return Err(image.error);
        }
        return Ok(IncludeImage(image.value, env.sep));
      }
      ghost var embedded := name;
      name := name + ".md";
      var file := FindFile(env.walk, name, env.sep);
      if file.Err? || file.value !in env.files {
        IncludeNoteMissing(env, d, fuel, line, embedded);
        return Err(if file.Err? then file.error else FileNotFound(file.value));
      }
      IncludeNoteCase(env, d, if fuel == 0 then 0 else fuel - 1, line, embedded, file.value);
      r := IncludeNote(file.value, fuel);
    }

    /** The rest of include_doc for a note found at `path`: its headings are
        shifted down by the counter, the counter is raised by one while the
        text is converted, and lowered again when the conversion returns
        normally. */
    method IncludeNote(path: string, fuel: nat) returns (r: Result<string>)
      requires path in env.files
      modifies this
      ensures fuel == 0 ==> Step(r, depth) == Step(Err(RecursionLimit), old(depth) + 1)
      ensures fuel > 0 ==> Step(r, depth) == Nested(env, old(depth), fuel - 1, env.files[path])
      decreases fuel, 0, 0
    {
      var n := depth;
      var lines := ShiftNote(SplitLines(env.files[path]), n);
      var text := JoinLines(lines);
      depth := depth + 1;
      if fuel == 0 {
        return Err(RecursionLimit);
      }
      r := ObsidianToTex(text, fuel - 1);
      NoteConverted(env, n, fuel - 1, env.files[path], r, depth);
      if r.Ok? {
        depth := depth - 1;
      }
    }
  }
}
