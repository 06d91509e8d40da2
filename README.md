# obsidian-to-latex in Dafny

A model of the converter at the heart of obsidian-to-latex. It turns an
Obsidian markdown note into LaTeX, line by line:

- a heading (`#` … `######`) becomes `\section` … `\subparagraph`, or nothing
  for depth 1 and for depths beyond 6;
- an embed `![[name]]` transcludes another note or includes an image;
- any other line has `#` and `_` escaped.

A transcluded note is found by walking the vault. Its headings are pushed
down by a nesting counter that `include_doc` keeps in a dictionary which
persists between calls (a mutable default argument). The note is then
converted recursively, with the counter one higher while the conversion runs.

The model has eight modules:

| module | file | what it holds |
|---|---|---|
| `Common` | `common.dfy` | `Option`, `Result` and the exceptions the converter raises. |
| `Lines` | `lines.dfy` | `str.splitlines`, `"\n".join` and `str.replace` for one character. It also holds the pieces of the regular expressions: `^#*`, `\s*` and `.*`. |
| `Escaping` | `escaping.dfy` | The `#`/`_` escaping, and its inverse `Unescape` as the partner to prove against. |
| `Headings` | `headings.dfy` | The match `(^#*)\s*(.*)`, `line_to_section`, its table of commands, and `get_title`. |
| `Paths` | `paths.dfy` | pathlib's suffix rule, `os.path.join`, `find_file` as a loop over a given directory walk, and `include_image`. |
| `Embeds` | `embeds.dfy` | The match `!\[\[(.*)\]\]` with its greedy group. |
| `Transclusion` | `transclusion.dfy` | `obsidian_to_tex`, `line_to_tex` and `include_doc` as functions over the counter. Each function returns the outcome together with the counter as the call leaves it. |
| `ObsidianToLatex` | `converter.dfy` | The class `Converter`, whose field `depth` is the counter. Its methods perform the three operations step by step, with the loops of the source. Each method is proved to agree with its function in `Transclusion`. |

The counter is `0` while the dictionary is still empty and its entry after
that. An exception is an `Err` result. A cycle of embeds recurses until
Python's recursion limit; here a `fuel` argument bounds the nesting, and
running out of fuel is the error `RecursionLimit`.

Two behaviours of the code are easy to miss, and the model keeps both:

- `include_doc` has no `try`/`finally` around the recursive conversion
  (`src/obsidian_to_latex/obsidian_to_latex.py:138-140`). An exception from a
  nested conversion therefore skips the decrement and leaves the counter
  raised. `Include`, `Nested` and `Converter.IncludeDoc` model exactly that.
  `Nested` states that the counter is left at least one higher after an
  exception, and `SelfEmbed` proves how far it is left raised for a note that
  embeds itself.
- `obsidian_to_tex` always appends `"\n"` to the joined lines
  (`src/obsidian_to_latex/obsidian_to_latex.py:80`), so the output of an
  included note ends with a line break, and an embed line renders as the note
  followed by the line break of the embedding line. `TexShape`, `NestedFlat`
  and `IncludeTwoLevels` state this.

## Model

| member | source | states |
|---|---|---|
| `Lines.SplitLines` | src/obsidian_to_latex/obsidian_to_latex.py:77 | No line holds a line break, and a text has no lines exactly when it is empty. |
| `Lines.TakeLine` | src/obsidian_to_latex/obsidian_to_latex.py:103 | What `.*` matches is the longest prefix without a line break: it stops at the end or right before a `\n`. |
| `Lines.SkipSpace` | src/obsidian_to_latex/obsidian_to_latex.py:103 | What `\s*` leaves is a tail of the text. Everything before it is whitespace, and it does not start with whitespace. |
| `Lines.LeadingHashes` | src/obsidian_to_latex/obsidian_to_latex.py:103-104 | The length of the `^#*` group: that many leading `#`, and no `#` right after them. |
| `Lines.Hashes` | src/obsidian_to_latex/obsidian_to_latex.py:136 | `"#" * n` has length `n` (0 for `n <= 0`) and holds only `#`. |
| `Lines.SplitJoin` | src/obsidian_to_latex/obsidian_to_latex.py:77-79 | Splitting a join of lines without line breaks gives back the lines. |
| `Lines.SplitLinesJoin` | src/obsidian_to_latex/obsidian_to_latex.py:133-139 | Re-splitting joined lines gives the lines back, less a trailing empty one. This is what a note's lines go through between the join in `include_doc` and the split in `obsidian_to_tex`. |
| `Lines.FirstLine` | src/obsidian_to_latex/obsidian_to_latex.py:161 | The first line of a text is everything before its first line break. |
| `Lines.ReplaceAppend` | src/obsidian_to_latex/obsidian_to_latex.py:89-90 | `replace` of a one-character pattern works piecewise over a concatenation. |
| `Lines.ReplaceAbsent` | src/obsidian_to_latex/obsidian_to_latex.py:89-90 | Replacing a character that does not occur changes nothing. |
| `Lines.ReplaceByChar` | src/obsidian_to_latex/obsidian_to_latex.py:156 | Replacing a character by one character keeps the length and maps position by position. |
| `Escaping.EscapeCons` | src/obsidian_to_latex/obsidian_to_latex.py:89-90 | The two replacements escape the text character by character: `#` to `\#`, `_` to `\_`, anything else kept. |
| `Escaping.EscapeLength` | src/obsidian_to_latex/obsidian_to_latex.py:89-90 | The escaped line is one character longer for every `#` and every `_`. |
| `Escaping.EscapeIdentity` | src/obsidian_to_latex/obsidian_to_latex.py:89-90 | A line with neither `#` nor `_` is left unchanged. |
| `Escaping.EscapeHead` | src/obsidian_to_latex/obsidian_to_latex.py:89-90 | An escaped non-empty text does not start with a bare `#` or `_`. |
| `Escaping.UnescapeEscape` | src/obsidian_to_latex/obsidian_to_latex.py:89-90 | Escaping loses nothing: unescaping gives back the original line. |
| `Escaping.EscapeEscapesAll` | src/obsidian_to_latex/obsidian_to_latex.py:89-90 | After escaping, every `#` and `_` follows a backslash. |
| `Headings.SectionFor` | src/obsidian_to_latex/obsidian_to_latex.py:96-107 | The lookup gives a command exactly for depths 2 to 6, and the empty string otherwise. A command starts with `\` and ends with `}`. |
| `Headings.LineToSection` | src/obsidian_to_latex/obsidian_to_latex.py:94-111 | Requires the line to start with `#`, as the source's assert does. The result is non-empty exactly when the heading depth is 2 to 6. |
| `Headings.SectionTable` | src/obsidian_to_latex/obsidian_to_latex.py:96-111 | Depths 2 to 6 give exactly `\section{t}`, `\subsection{t}`, `\subsubsection{t}`, `\paragraph{t}` and `\subparagraph{t}`; every other depth gives `""`. |
| `Headings.HeadingCommands` | src/obsidian_to_latex/obsidian_to_latex.py:94-111 | A heading line has depth at least 1. It renders as the command for its depth, around its escaped text, or as `""` for depth 1 and for depths beyond 6. |
| `Headings.MatchComposed` | src/obsidian_to_latex/obsidian_to_latex.py:103-108 | Take `n` hashes, then whitespace, then a body that starts with neither whitespace nor `#`. The match gives back depth `n` and the body's first line. |
| `Headings.MatchShifted` | src/obsidian_to_latex/obsidian_to_latex.py:136 | Prepending `n` hashes deepens the matched depth by exactly `n` and keeps the matched text. |
| `Headings.GetTitle` | src/obsidian_to_latex/obsidian_to_latex.py:160-166 | Fails exactly on the empty text, with `NoFirstLine`, and otherwise never yields `None`. The title holds no line break and does not start with whitespace. |
| `Headings.TitleOfFirstLine` | src/obsidian_to_latex/obsidian_to_latex.py:160-166 | The title is the text group of the first line. |
| `Paths.LastComponentAfterSep` | src/obsidian_to_latex/obsidian_to_latex.py:123 | The file name of a path holds no separator and follows the last one, or is the whole path when there is none. |
| `Paths.SuffixShape` | src/obsidian_to_latex/obsidian_to_latex.py:123 | A suffix is empty, or is a dot followed by at least one more character, with no further dot and at least one character of the name before it. |
| `Paths.SuffixEmpty` | src/obsidian_to_latex/obsidian_to_latex.py:123 | The suffix is empty exactly when every dot strictly inside the name has another dot after it. |
| `Paths.StripSuffix` | src/obsidian_to_latex/obsidian_to_latex.py:154 | `with_suffix("")` removes exactly the suffix: the result followed by the suffix is the path. |
| `Paths.Join` | src/obsidian_to_latex/obsidian_to_latex.py:147 | `os.path.join(root, name)` ends with `name`. |
| `Paths.LocateFirstHit` | src/obsidian_to_latex/obsidian_to_latex.py:144-150 | The lookup fails exactly when no directory of the walk lists the name, and then with `FileNotFound` naming it. Otherwise the result is the name joined to the root of the first directory that lists it. |
| `Paths.FirstHitUnique` | src/obsidian_to_latex/obsidian_to_latex.py:145-147 | There is one first directory at most. |
| `Paths.FindFile` | src/obsidian_to_latex/obsidian_to_latex.py:144-150 | The loop over the walk returns what `Locate` describes, so `LocateFirstHit` holds of it. |
| `Paths.ImageCommand` | src/obsidian_to_latex/obsidian_to_latex.py:153-157 | The command is the fixed `\includegraphics[width=\columnwidth,keepaspectratio]{` prefix, then the path without its suffix with each separator as `/`, then `}`. No other separator is left between the braces. |
| `Paths.JoinedName` | src/obsidian_to_latex/obsidian_to_latex.py:147 | A name without separators is the last component of any path it is joined to. |
| `Paths.ImageOfFoundFile` | src/obsidian_to_latex/obsidian_to_latex.py:126 | A found file's path carries a suffix exactly when its name does, and `with_suffix("")` strips exactly that suffix. |
| `Embeds.FindLastClose` | src/obsidian_to_latex/obsidian_to_latex.py:119 | Finds the position of the last `]]`, or reports there is none. |
| `Embeds.ParseEmbedMatch` | src/obsidian_to_latex/obsidian_to_latex.py:119-122 | The line matches exactly when it starts with `![[` and a `]]` follows on its first line. The group is the text right after `![[`, and it is the longest possible capture (greedy `.*`). |
| `Embeds.CapturesWithinLine` | src/obsidian_to_latex/obsidian_to_latex.py:119 | A capture never crosses a line break. |
| `Embeds.EmbedRoundTrip` | src/obsidian_to_latex/obsidian_to_latex.py:119-122 | Matching `![[` + name + `]]` gives the name back, for any name without a line break, even one holding `]]`. |
| `Embeds.UnclosedEmbed` | src/obsidian_to_latex/obsidian_to_latex.py:119-121 | A line with no `]]` after `![[` on its first line does not match. |
| `Embeds.HeadingNotEmbed` | src/obsidian_to_latex/obsidian_to_latex.py:85-88 | A heading line is never an embed, so the heading branch of `line_to_tex` shadows nothing. |
| `Transclusion.Entered` | src/obsidian_to_latex/obsidian_to_latex.py:116-117 | A counter that does not exist yet is created at exactly 1; an existing entry is kept. |
| `Transclusion.Tex` | src/obsidian_to_latex/obsidian_to_latex.py:76-81 | The counter never goes down. After a normal return it is as before, except that the first `include_doc` may have created it at 1. |
| `Transclusion.TexShape` | src/obsidian_to_latex/obsidian_to_latex.py:76-81 | The output is one rendered line for each input line, joined with `\n` and ended with `\n`. The `i`-th rendered line is what `line_to_tex` gives for the `i`-th line with the counter set up, which it leaves where it was. The empty text gives `"\n"` and leaves the counter alone. |
| `Transclusion.TexLineEntered` | src/obsidian_to_latex/obsidian_to_latex.py:115-117 | `line_to_tex` gives the same outcome before the counter exists as with the counter at 1, and after a normal return with the counter set up the counter is unchanged. |
| `Transclusion.TexLinesEach` | src/obsidian_to_latex/obsidian_to_latex.py:78 | After a normal return of the comprehension, its `i`-th result is what `line_to_tex` gives for the `i`-th line with the counter set up, and the counter stays there. |
| `Transclusion.TexLinesEntered` | src/obsidian_to_latex/obsidian_to_latex.py:115-117 | The comprehension gives the same outcome before the counter exists as with the counter at 1. |
| `Transclusion.TexLinesAt` | src/obsidian_to_latex/obsidian_to_latex.py:78 | With the counter set up, the `i`-th result of a comprehension that returned normally is what `line_to_tex` gives for the `i`-th line. |
| `Transclusion.TexLinesUncons` | src/obsidian_to_latex/obsidian_to_latex.py:78 | A comprehension that returned normally: the first line returned normally, then the rest did from the counter the first line left, and the results are the first followed by the rest. |
| `Transclusion.TexLines` | src/obsidian_to_latex/obsidian_to_latex.py:78 | The comprehension yields one result for each line, and the counter is restored after a normal return. |
| `Transclusion.TexLine` | src/obsidian_to_latex/obsidian_to_latex.py:84-91 | The counter never goes down, and it is restored after a normal return. |
| `Transclusion.Include` | src/obsidian_to_latex/obsidian_to_latex.py:115-141 | The counter is at least 1 afterwards, and at least where it was. After a normal return it is restored. |
| `Transclusion.Nested` | src/obsidian_to_latex/obsidian_to_latex.py:133-141 | The raised counter is lowered back to `n` after a normal return. After an exception it is left at `n + 1` or higher, because no decrement runs. |
| `Transclusion.ShiftedLines` | src/obsidian_to_latex/obsidian_to_latex.py:134-136 | The reference rendering of shifted lines. A heading of depth `k` is rendered as the command for depth `k + n`, and every other line is escaped. |
| `Transclusion.ShiftedHeading` | src/obsidian_to_latex/obsidian_to_latex.py:134-136 | A heading shifted by `n` stays a heading `n` levels deeper with the same text. It renders as the command for its original depth plus `n`. |
| `Transclusion.ShiftedRendering` | src/obsidian_to_latex/obsidian_to_latex.py:134-136 | Rendering a shifted line is the reference rendering. |
| `Transclusion.ShiftLine` | src/obsidian_to_latex/obsidian_to_latex.py:134-136 | The shift adds no line break. It neither creates nor removes an embed, and an empty line stays empty. |
| `Transclusion.RenderShifted` | src/obsidian_to_latex/obsidian_to_latex.py:134-136 | Rendering the shifted lines one by one is the reference rendering. |
| `Transclusion.ShiftKeepsLines` | src/obsidian_to_latex/obsidian_to_latex.py:133-137 | The shift keeps the number of lines, adds no line break and adds no embed. |
| `Transclusion.ShiftTrimLast` | src/obsidian_to_latex/obsidian_to_latex.py:133-137 | Shifting commutes with losing a trailing empty line. |
| `Transclusion.PlainTexLine` | src/obsidian_to_latex/obsidian_to_latex.py:84-91 | A line that is not an embed is rendered on its own and leaves the counter alone. |
| `Transclusion.FlatLines` | src/obsidian_to_latex/obsidian_to_latex.py:78 | Lines without embeds are rendered one by one, and the counter is left alone. |
| `Transclusion.FlatText` | src/obsidian_to_latex/obsidian_to_latex.py:76-81 | A text without embeds becomes its rendered lines, each followed by `\n`. |
| `Transclusion.IncludeUnparsed` | src/obsidian_to_latex/obsidian_to_latex.py:116-121 | A line that does not match raises with the line itself. The counter has already been set up. |
| `Transclusion.IncludeImageCase` | src/obsidian_to_latex/obsidian_to_latex.py:123-126 | A name with a suffix is looked up as it is, and its path goes to `include_image`. |
| `Transclusion.IncludeNoteCase` | src/obsidian_to_latex/obsidian_to_latex.py:123-141 | A note found and read is converted one level deeper. With no fuel left the recursion limit strikes after the counter was raised. |
| `Transclusion.IncludeNoteMissing` | src/obsidian_to_latex/obsidian_to_latex.py:124-131 | A note is looked up under its name with `.md` appended. If it is not found or cannot be read, `FileNotFound` is raised. |
| `Transclusion.NestedFlat` | src/obsidian_to_latex/obsidian_to_latex.py:133-141 | A note without embeds is converted with every heading `n` levels deeper, less a trailing empty line, and the counter back at `n`. |
| `Transclusion.NestedEachLine` | src/obsidian_to_latex/obsidian_to_latex.py:133-141 | After the shift and the re-split, every line of a note converted at counter `n` is rendered by `line_to_tex` with the counter at `n + 1`. An embed inside it therefore shifts its own note's headings by `n + 1`, at any depth of nesting. |
| `Transclusion.IncludeNoteEmbed` | src/obsidian_to_latex/obsidian_to_latex.py:119-141 | The embed `![[name]]` of a note that is found and read converts the note one level deeper, with the counter `include_doc` set up. |
| `Transclusion.TexOneLine` | src/obsidian_to_latex/obsidian_to_latex.py:76-81 | A text of one line converts to that line's rendering followed by `\n`, with the counter that line left. |
| `Transclusion.NestedEmbedOnly` | src/obsidian_to_latex/obsidian_to_latex.py:133-141 | Converting, at counter `n`, a note that holds only the embed of a note without embeds: the inner note's headings come out `n + 1` levels deeper, and the counter is back at `n`. |
| `Transclusion.IncludeTwoLevels` | src/obsidian_to_latex/obsidian_to_latex.py:115-141 | A note embedded inside an embedded note: its headings are shifted by `Entered(d) + 1`, one more than the outer note's, and the counter ends where `include_doc` set it. |
| `Transclusion.IncludeFlatNote` | src/obsidian_to_latex/obsidian_to_latex.py:115-141 | Embedding a note without embeds shifts its headings by the counter `D` that `include_doc` set up. Afterwards the counter is back at `D`. |
| `Transclusion.FirstEmbedShiftsByOne` | src/obsidian_to_latex/obsidian_to_latex.py:115-141 | The first embed of a run creates the counter at 1, so a note without embeds comes out with every heading exactly one level deeper, and the counter stays at 1. |
| `Transclusion.IncludeImageEmbed` | src/obsidian_to_latex/obsidian_to_latex.py:119-126 | An image embed gives the command for the first directory that lists the file, or `FileNotFound` when none does. |
| `Transclusion.IncludeMissingNote` | src/obsidian_to_latex/obsidian_to_latex.py:123-128 | A note missing from every directory raises `FileNotFound` for its name with `.md`. |
| `Transclusion.MalformedEmbedLine` | src/obsidian_to_latex/obsidian_to_latex.py:87-88 | An embed line without `]]` raises with the line itself. |
| `Transclusion.FirstLineFails` | src/obsidian_to_latex/obsidian_to_latex.py:78 | An exception from the first line is the exception of the whole text. |
| `Transclusion.SelfEmbed` | src/obsidian_to_latex/obsidian_to_latex.py:115-141 | A note whose first line embeds itself never returns. Each level raises the counter, no decrement runs, and the counter ends `fuel + 1` above where it was set up. |
| `Transclusion.SelfNested` | src/obsidian_to_latex/obsidian_to_latex.py:133-141 | Converting such a note fails at its first line, with the counter `fuel + 2` above `n`. |
| `Transclusion.FirstShiftedLine` | src/obsidian_to_latex/obsidian_to_latex.py:133-139 | A first line that is neither a heading nor empty survives the shift, the join and the re-split unchanged. |
| `ObsidianToLatex.ShiftNote` | src/obsidian_to_latex/obsidian_to_latex.py:133-136 | The loop that rewrites the note's lines in place gives exactly the headings shifted by `n`. |
| `ObsidianToLatex.ShiftHeadingsEach` | src/obsidian_to_latex/obsidian_to_latex.py:134-136 | The shift keeps the number of lines, and each shifted line is its own line with `n` more `#` when it is a heading, unchanged otherwise. |
| `ObsidianToLatex.NoteConverted` | src/obsidian_to_latex/obsidian_to_latex.py:138-141 | The recursive outcome, with the counter lowered after a normal return only, is the second half of `include_doc`. |
| `ObsidianToLatex.Converter.constructor` | src/obsidian_to_latex/obsidian_to_latex.py:115 | A fresh process starts with the counter's dictionary empty. |
| `ObsidianToLatex.Converter.ObsidianToTex` | src/obsidian_to_latex/obsidian_to_latex.py:76-81 | The loop over the lines gives the outcome and the new counter that `Transclusion.Tex` gives for the old counter. |
| `ObsidianToLatex.Converter.LineToTex` | src/obsidian_to_latex/obsidian_to_latex.py:84-91 | It agrees with `Transclusion.TexLine`: outcome and new counter. |
| `ObsidianToLatex.Converter.IncludeDoc` | src/obsidian_to_latex/obsidian_to_latex.py:115-128 | It agrees with `Transclusion.Include`, from the setting up of the counter to the error paths. |
| `ObsidianToLatex.Converter.IncludeNote` | src/obsidian_to_latex/obsidian_to_latex.py:129-141 | It raises the counter and converts the shifted note, lowering the counter only after a normal return. It agrees with `Transclusion.Nested`, or fails with `RecursionLimit` with the counter raised when no fuel is left. |

## Left out

- `main`, `get_vault_root` and the LaTeX wrapper and build around them are not part of this model. They run the converter over a file and call external programs.
- Reading files and walking the vault are inputs. The vault walk, in `os.walk` order, and the text of every readable file are given as an `Env` value. `VAULT_ROOT` is implicit in the walk.
- A file that the walk lists but that cannot be read raises `FileNotFound` with its path. Other `OSError`s and decoding errors of `open` are not modelled.
- Python's recursion limit becomes the `fuel` argument. `RecursionLimit` is raised at the point where `include_doc` would recurse, after the counter was raised. The actual depth at which Python gives up is not modelled.
- Only `"\n"` is a line break for `splitlines` and for `.` in the regular expressions. Python also breaks lines at `\r`, `\r\n`, `\v`, `\f`, `\x1c`–`\x1e`, `\x85` and the Unicode line separators.
- `\s` is restricted to ASCII whitespace: space, 9–13 and 28–31. Unicode whitespace is not matched.
- Paths use the single separator `sep`. Windows' second separator `/`, drive letters and pathlib's normalisation are not modelled. That normalisation covers collapsing `//`, dropping `.` components and trailing separators.
- The suffix follows pathlib up to Python 3.13: the last dot, when it is neither the first nor the last character of the name. Newer versions' handling of a trailing dot is not modelled.
- `with_suffix("")` raises `ValueError` for a path with an empty name. Found files always have a name, so that case does not arise and is not modelled.
- The exception messages are reduced to the data they carry: the line for a malformed embed, and the file name or path for `FileNotFound`.
- The behaviours of the separate markdown pre-processing module and its tests are not part of this model.
- `Paths.IncludeImage` carries no contract of its own. What it returns is stated by `Paths.ImageCommand`.
- `Escaping.Escape` carries no contract of its own. `EscapeCons`, `EscapeLength`, `EscapeIdentity`, `EscapeHead`, `UnescapeEscape` and `EscapeEscapesAll` state what it computes.
- `Headings.MatchHeading` carries no contract of its own. `MatchComposed` and `MatchShifted` state what it matches.
- `Embeds.ParseEmbed` carries no contract of its own. `ParseEmbedMatch`, `EmbedRoundTrip` and `UnclosedEmbed` state what it matches.
- `Paths.Suffix` carries no contract of its own. `SuffixShape` and `SuffixEmpty` state its shape.
- `Paths.HasSuffix` carries no contract of its own. `SuffixEmpty` and `ImageOfFoundFile` state when it holds.
- `Paths.Locate` carries no contract of its own. `LocateFirstHit` and `FirstHitUnique` state what it finds, and `Paths.FindFile` is proved equal to it.
- `Lines.JoinLines` carries no contract of its own. `SplitJoin` and `SplitLinesJoin` state it as the inverse of the split.
- `Lines.Replace` carries no contract of its own. `ReplaceAppend`, `ReplaceAbsent` and `ReplaceByChar` state what it computes.
- `Transclusion.ShiftHeading` and `Transclusion.ShiftHeadings` carry no contract of their own. `ShiftedHeading`, `ShiftLine`, `ShiftKeepsLines` and `ObsidianToLatex.ShiftHeadingsEach` state what they compute.
- `Transclusion.PlainLine` carries no contract of its own. `PlainTexLine` and `ShiftedRendering` state what it renders.
- `ObsidianToLatex.Converter.IncludeDoc` hands the part of `include_doc` after the file is found to the method `IncludeNote`, and the heading loop to `ShiftNote`. Each half is proved against its own function: `Transclusion.Include` and `Transclusion.Nested`.
- Concurrent conversions sharing one counter are not modelled; a `Converter` object is used by one caller at a time.
