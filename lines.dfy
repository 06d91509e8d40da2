/** Line handling: `str.splitlines`, `"\n".join`, prefixes and the whitespace
    and line-break rules of the regular expressions the converter uses.
    Only "\n" is a line break here. */
module Lines {

  predicate StartsWith(s: string, p: string)
  {
    |p| <= |s| && s[..|p|] == p
  }

  /** The characters `\s` matches, restricted to ASCII: space, the controls
      9 to 13 and the separators 28 to 31. */
  predicate IsSpace(c: char)
  {
    c == ' ' || 9 <= c as int <= 13 || 28 <= c as int <= 31
  }

  /** `"#" * n`; a count of zero or less gives the empty string. */
  function Hashes(n: int): (r: string)
    ensures |r| == if n <= 0 then 0 else n
    ensures forall i :: 0 <= i < |r| ==> r[i] == '#'
  {
    if n <= 0 then "" else "#" + Hashes(n - 1)
  }

  /** `s.split("\n")`: the pieces between line breaks, never an empty list. */
  function Split(s: string): (r: seq<string>)
    ensures |r| >= 1
    ensures forall i :: 0 <= i < |r| ==> '\n' !in r[i]
  {
    if s == [] then [""]
    else if s[0] == '\n' then [""] + Split(s[1..])
    else
      var t := Split(s[1..]);
      [[s[0]] + t[0]] + t[1..]
  }

  /** `"\n".join(ls)` */
  function JoinLines(ls: seq<string>): string
  {
    if ls == [] then ""
    else if |ls| == 1 then ls[0]
    else ls[0] + "\n" + JoinLines(ls[1..])
  }

  /** `s.splitlines()` with "\n" as the only break: a final line break ends the
      last line rather than opening an empty one, and "" has no lines. */
  function SplitLines(s: string): (r: seq<string>)
    ensures forall i :: 0 <= i < |r| ==> '\n' !in r[i]
    ensures r == [] <==> s == []
  {
    if s == [] then []
    else if s[|s| - 1] == '\n' then Split(s[..|s| - 1])
    else Split(s)
  }

  /** The longest prefix of `s` without a line break: what `.*` matches. */
  function TakeLine(s: string): (r: string)
    ensures |r| <= |s| && r == s[..|r|]
    ensures '\n' !in r
    ensures |r| == |s| || s[|r|] == '\n'
  {
    if s == [] || s[0] == '\n' then "" else [s[0]] + TakeLine(s[1..])
  }

  /** `.*` runs at least as far as the text is free of line breaks. */
  lemma {:induction false} TakeLineReaches(s: string, m: nat)
    requires m <= |s|
    requires forall i :: 0 <= i < m ==> s[i] != '\n'
    ensures |TakeLine(s)| >= m
  {
    if m > 0 {
      TakeLineReaches(s[1..], m - 1);
    }
  }

  /** `s` after its leading whitespace: what is left once `\s*` has matched. */
  function SkipSpace(s: string): (r: string)
    ensures |r| <= |s| && r == s[|s| - |r|..]
    ensures r == [] || !IsSpace(r[0])
    ensures forall i :: 0 <= i < |s| - |r| ==> IsSpace(s[i])
  {
    if s != [] && IsSpace(s[0]) then SkipSpace(s[1..]) else s
  }

  /** The number of leading `#`: the length of what `^#*` matches. */
  function LeadingHashes(s: string): (n: nat)
    ensures n <= |s|
    ensures forall i :: 0 <= i < n ==> s[i] == '#'
    ensures n == |s| || s[n] != '#'
  {
    if s != [] && s[0] == '#' then 1 + LeadingHashes(s[1..]) else 0
  }

  /** The count of leading hashes is fixed by where the first non-`#` is. */
  lemma {:induction false} LeadingHashesAt(s: string, k: nat)
    requires k <= |s|
    requires forall i :: 0 <= i < k ==> s[i] == '#'
    requires k == |s| || s[k] != '#'
    ensures LeadingHashes(s) == k
  {
    if k > 0 {
      LeadingHashesAt(s[1..], k - 1);
    }
  }

  /** What `\s*` leaves is fixed by where the first non-whitespace is. */
  lemma {:induction false} SkipSpaceAt(s: string, k: nat)
    requires k <= |s|
    requires forall i :: 0 <= i < k ==> IsSpace(s[i])
    requires k == |s| || !IsSpace(s[k])
    ensures SkipSpace(s) == s[k..]
  {
    if k > 0 {
      SkipSpaceAt(s[1..], k - 1);
      assert s[1..][k - 1..] == s[k..];
    }
  }

  /** `s.replace(c, t)` for a one-character pattern `c`. */
  function Replace(s: string, c: char, t: string): string
  {
    if s == [] then []
    else (if s[0] == c then t else [s[0]]) + Replace(s[1..], c, t)
  }

  lemma {:induction false} ReplaceAppend(a: string, b: string, c: char, t: string)
    ensures Replace(a + b, c, t) == Replace(a, c, t) + Replace(b, c, t)
  {
    if a == [] {
      assert a + b == b;
    } else {
      var h := if a[0] == c then t else [a[0]];
      var ra, rb := Replace(a[1..], c, t), Replace(b, c, t);
      assert Replace(a + b, c, t) == h + Replace(a[1..] + b, c, t) by {
        assert (a + b)[0] == a[0];
        assert (a + b)[1..] == a[1..] + b;
      }
      ReplaceAppend(a[1..], b, c, t);
      assert h + (ra + rb) == (h + ra) + rb;
    }
  }

  lemma {:induction false} ReplaceAbsent(s: string, c: char, t: string)
    requires c !in s
    ensures Replace(s, c, t) == s
  {
    if s != [] {
      ReplaceAbsent(s[1..], c, t);
      assert s == [s[0]] + s[1..];
    }
  }

  /** Replacing a character by a single character keeps the length and works
      position by position. */
  lemma {:induction false} ReplaceByChar(s: string, c: char, t: string)
    requires |t| == 1
    ensures |Replace(s, c, t)| == |s|
    ensures forall i :: 0 <= i < |s| ==> Replace(s, c, t)[i] == if s[i] == c then t[0] else s[i]
  {
    if s != [] {
      ReplaceByChar(s[1..], c, t);
      var head := if s[0] == c then t else [s[0]];
      var r := Replace(s, c, t);
      assert r == head + Replace(s[1..], c, t);
      forall i | 0 <= i < |s| ensures r[i] == if s[i] == c then t[0] else s[i] {
        if i > 0 {
          assert r[i] == Replace(s[1..], c, t)[i - 1];
          assert s[i] == s[1..][i - 1];
        }
      }
    }
  }

  /** A list without its last element when that element is the empty line. */
  function TrimLast(ls: seq<string>): seq<string>
  {
    if ls != [] && ls[|ls| - 1] == "" then ls[..|ls| - 1] else ls
  }

  // ---------------------------------------------------------------------
  // Splitting and joining are inverse to each other.

  /** A piece without a line break splits to itself. */
  lemma {:induction false} SplitSingle(a: string)
    requires '\n' !in a
    ensures Split(a) == [a]
  {
    if a != [] {
      SplitSingle(a[1..]);
      assert a == [a[0]] + a[1..];
    }
  }

  /** Splitting at a known first line break. */
  lemma {:induction false} SplitCons(a: string, rest: string)
    requires '\n' !in a
    ensures Split(a + "\n" + rest) == [a] + Split(rest)
  {
    if a == [] {
      assert a + "\n" + rest == "\n" + rest;
    } else {
      SplitCons(a[1..], rest);
      var s := a + "\n" + rest;
      assert a[0] in a;
      assert s[0] == a[0];
      assert s[1..] == a[1..] + "\n" + rest;
      assert a == [a[0]] + a[1..];
    }
  }

  /** Splitting a join gives back the lines, when no line holds a break. */
  lemma {:induction false} SplitJoin(ls: seq<string>)
    requires |ls| >= 1
    requires forall i :: 0 <= i < |ls| ==> '\n' !in ls[i]
    ensures Split(JoinLines(ls)) == ls
  {
    if |ls| == 1 {
      SplitSingle(ls[0]);
    } else {
      SplitJoin(ls[1..]);
      SplitCons(ls[0], JoinLines(ls[1..]));
    }
  }

  /** Joining after appending one line. */
  lemma {:induction false} JoinSnoc(ls: seq<string>, x: string)
    requires |ls| >= 1
    ensures JoinLines(ls + [x]) == JoinLines(ls) + "\n" + x
  {
    if |ls| == 1 {
    } else {
      JoinSnoc(ls[1..], x);
      assert (ls + [x])[1..] == ls[1..] + [x];
    }
  }

  /** Re-splitting joined lines loses exactly a trailing empty line: this is
      what happens to a document's lines between the join in include_doc and
      the split in obsidian_to_tex. */
  lemma {:induction false} SplitLinesJoin(ls: seq<string>)
    requires forall i :: 0 <= i < |ls| ==> '\n' !in ls[i]
    ensures SplitLines(JoinLines(ls)) == TrimLast(ls)
  {
    if ls == [] {
    } else if |ls| == 1 {
      SplitSingle(ls[0]);
    } else {
      var n := |ls|;
      var init := ls[..n - 1];
      assert ls == init + [ls[n - 1]];
      JoinSnoc(init, ls[n - 1]);
      var j := JoinLines(ls);
      SplitJoin(init);
      if ls[n - 1] == "" {
        assert j == JoinLines(init) + "\n";
        assert j[..|j| - 1] == JoinLines(init);
      } else {
        SplitJoin(ls);
        assert j[|j| - 1] == ls[n - 1][|ls[n - 1]| - 1];
      }
    }
  }

  /** The first line of a text is everything before its first line break. */
  lemma {:induction false} FirstLine(a: string, rest: string)
    requires '\n' !in a
    requires rest == [] || rest[0] == '\n'
    requires a + rest != []
    ensures SplitLines(a + rest) != [] && SplitLines(a + rest)[0] == a
  {
    var s := a + rest;
    if rest == [] {
      SplitSingle(a);
      assert a[|a| - 1] in a;
      assert s == a;
    } else {
      SplitCons(a, rest[1..]);
      assert s == a + "\n" + rest[1..];
      if s[|s| - 1] == '\n' {
        if rest[1..] == [] {
          assert s[..|s| - 1] == a;
          SplitSingle(a);
        } else {
          var r := rest[1..];
          assert s[..|s| - 1] == a + "\n" + r[..|r| - 1];
          SplitCons(a, r[..|r| - 1]);
        }
      }
    }
  }
}
