/** Embed lines: the regular expression `!\[\[(.*)\]\]` of include_doc, matched
    at the start of a line. The group is greedy and `.` stops at a line break,
    so the name runs up to the last `]]` on the embed's first line. */
module Embeds {
  import opened Common
  import opened Lines

  /** What opens an embed. */
  const EmbedOpen: string := "![["

  /** `]]` starts at position `j` of `s`. */
  predicate CloseAt(s: string, j: int)
  {
    0 <= j && j + 2 <= |s| && s[j] == ']' && s[j + 1] == ']'
  }

  /** The position of the last `]]` in `s`. */
  function FindLastClose(s: string): (r: Option<nat>)
    ensures r.Some? ==> CloseAt(s, r.value)
    ensures r.Some? ==> forall j :: r.value < j ==> !CloseAt(s, j)
    ensures r.None? ==> forall j :: !CloseAt(s, j)
  {
    if |s| < 2 then None
    else if s[|s| - 2] == ']' && s[|s| - 1] == ']' then Some(|s| - 2)
    else
      var r := FindLastClose(s[..|s| - 1]);
      assert forall j :: CloseAt(s, j) ==> j == |s| - 2 || CloseAt(s[..|s| - 1], j);
      r
  }

  /** The group can span the `k` characters after `![[`: they hold no line
      break and `]]` follows them. */
  predicate Captures(line: string, k: int)
  {
    StartsWith(line, EmbedOpen) && CloseAt(line[3..], k) && '\n' !in line[3..3 + k]
  }

  /** `re.match(r"!\[\[(.*)\]\]", line).group(1)`, or None when the line does
      not match. */
  function ParseEmbed(line: string): Option<string>
  {
    if !StartsWith(line, EmbedOpen) then None
    else
      var seg := TakeLine(line[3..]);
      match FindLastClose(seg)
      case None => None
      case Some(j) => Some(seg[..j])
  }

  /** The line matches exactly when some capture is possible; the group is
      the text right after `![[`, and the longest capture, as the greedy
      `.*` makes it. */
  lemma ParseEmbedMatch(line: string)
    ensures ParseEmbed(line).Some? <==> exists k :: Captures(line, k)
    ensures ParseEmbed(line).Some? ==>
      var v := ParseEmbed(line).value;
      Captures(line, |v|) && v == line[3..3 + |v|]
    ensures ParseEmbed(line).Some? ==> forall k :: Captures(line, k) ==> k <= |ParseEmbed(line).value|
  {
    if StartsWith(line, EmbedOpen) {
      CapturesWithinLine(line);
      var seg := TakeLine(line[3..]);
      match FindLastClose(seg)
      case None =>
      case Some(j) =>
        assert Captures(line, j);
    }
  }

  /** A capture never crosses the first line break: it can end exactly where
      `]]` occurs on the first line after `![[`. */
  lemma CapturesWithinLine(line: string)
    requires StartsWith(line, EmbedOpen)
    ensures forall k :: Captures(line, k) <==> CloseAt(TakeLine(line[3..]), k)
  {
    var rest := line[3..];
    var seg := TakeLine(rest);
    forall k ensures Captures(line, k) <==> CloseAt(seg, k) {
      if Captures(line, k) {
        forall i | 0 <= i < k + 2 ensures rest[i] != '\n' {
          if i < k {
            assert rest[i] == rest[..k][i];
          }
        }
        TakeLineReaches(rest, k + 2);
        assert seg[k] == rest[k] && seg[k + 1] == rest[k + 1];
      }
      if CloseAt(seg, k) {
        assert rest[..k] == seg[..k];
        assert forall c :: c in seg[..k] ==> c in seg;
      }
    }
  }

  /** Writing a name between `![[` and `]]` and matching the line gives the
      name back, whatever `]]` the name itself holds. */
  lemma EmbedRoundTrip(name: string)
    requires '\n' !in name
    ensures ParseEmbed(EmbedOpen + name + "]]") == Some(name)
  {
    var line := EmbedOpen + name + "]]";
    assert line[..3] == EmbedOpen;
    assert line[3..] == name + "]]";
    assert line[3..3 + |name|] == name;
    assert Captures(line, |name|);
    ParseEmbedMatch(line);
    var r := ParseEmbed(line);
    assert |r.value| <= |name|;
  }

  /** A line that opens an embed but has no `]]` after it on its first line
      does not match. */
  lemma UnclosedEmbed(line: string)
    requires StartsWith(line, EmbedOpen)
    requires forall j :: !CloseAt(TakeLine(line[3..]), j)
    ensures ParseEmbed(line) == None
  {
    CapturesWithinLine(line);
    ParseEmbedMatch(line);
  }

  /** A heading line is never an embed. */
  lemma HeadingNotEmbed(s: string)
    requires StartsWith(s, "#")
    ensures !StartsWith(s, EmbedOpen)
  {
    assert s[0] == '#';
    assert |s| < 3 || s[..3][0] == '#';
  }
}
