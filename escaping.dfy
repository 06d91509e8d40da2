/** Escaping of the two characters LaTeX reserves that the converter treats:
    `line.replace("#", "\#")` followed by `line.replace("_", "\_")`. */
module Escaping {
  import opened Lines

  /** The escaping applied to plain lines and heading text: every `#` becomes
      `\#`, then every `_` becomes `\_`. */
  function Escape(s: string): string
  {
    Replace(Replace(s, '#', "\\#"), '_', "\\_")
  }

  /** The inverse of Escape: `\#` and `\_` become `#` and `_` again. */
  function Unescape(s: string): string
  {
    if |s| >= 2 && s[0] == '\\' && (s[1] == '#' || s[1] == '_') then [s[1]] + Unescape(s[2..])
    else if s == [] then []
    else [s[0]] + Unescape(s[1..])
  }

  /** Every `#` and `_` in `r` sits right after a backslash. */
  predicate AllEscaped(r: string)
  {
    forall i :: 0 <= i < |r| && (r[i] == '#' || r[i] == '_') ==> 0 < i && r[i - 1] == '\\'
  }

  /** What Escape makes of one character. */
  function EscapeChar(c: char): string
  {
    if c == '#' then "\\#" else if c == '_' then "\\_" else [c]
  }

  /** Escaping works character by character. */
  lemma EscapeCons(c: char, s: string)
    ensures Escape([c] + s) == EscapeChar(c) + Escape(s)
  {
    ReplaceAppend([c], s, '#', "\\#");
    ReplaceAppend(Replace([c], '#', "\\#"), Replace(s, '#', "\\#"), '_', "\\_");
    assert ([c] + s)[1..] == s;
    if c == '#' {
      assert Replace([c], '#', "\\#") == "\\#";
      assert Replace("\\#", '_', "\\_") == "\\#" by {
        ReplaceAbsent("\\#", '_', "\\_");
      }
    } else {
      assert Replace([c], '#', "\\#") == [c];
    }
  }

  /** The escaped text is one character longer for every `#` and every `_`. */
  lemma {:induction false} EscapeLength(s: string)
    ensures |Escape(s)| == |s| + multiset(s)['#'] + multiset(s)['_']
  {
    if s != [] {
      assert |Escape(s)| == |EscapeChar(s[0])| + |Escape(s[1..])| by {
        EscapeCons(s[0], s[1..]);
        assert s == [s[0]] + s[1..];
      }
      EscapeLength(s[1..]);
      assert multiset(s) == multiset([s[0]]) + multiset(s[1..]) by {
        assert s == [s[0]] + s[1..];
      }
    }
  }

  /** A text with neither `#` nor `_` comes back unchanged. */
  lemma EscapeIdentity(s: string)
    requires '#' !in s && '_' !in s
    ensures Escape(s) == s
  {
    ReplaceAbsent(s, '#', "\\#");
    ReplaceAbsent(s, '_', "\\_");
  }

  /** An escaped text never starts with a bare `#` or `_`. */
  lemma EscapeHead(s: string)
    requires s != []
    ensures Escape(s) != [] && Escape(s)[0] != '#' && Escape(s)[0] != '_'
  {
    EscapeCons(s[0], s[1..]);
    assert s == [s[0]] + s[1..];
  }

  /** Escape loses nothing: Unescape recovers the original text. */
  lemma {:induction false} UnescapeEscape(s: string)
    ensures Unescape(Escape(s)) == s
  {
    if s == [] {
      assert Escape(s) == [];
    } else {
      var c, rest := s[0], s[1..];
      assert s == [c] + rest;
      EscapeCons(c, rest);
      UnescapeEscape(rest);
      var e := Escape(rest);
      if c == '#' || c == '_' {
        assert Escape(s) == ['\\', c] + e;
        assert (['\\', c] + e)[2..] == e;
      } else {
        assert Escape(s) == [c] + e;
        assert ([c] + e)[1..] == e;
        if c == '\\' && |e| >= 1 {
          EscapeHead(rest);
        }
      }
    }
  }

  /** Gluing two escaped texts keeps them escaped, provided the second does
      not start with a bare `#` or `_`. */
  lemma EscapedConcat(h: string, e: string)
    requires AllEscaped(h) && AllEscaped(e)
    requires e == [] || (e[0] != '#' && e[0] != '_')
    ensures AllEscaped(h + e)
  {
    var r := h + e;
    forall i | 0 <= i < |r| && (r[i] == '#' || r[i] == '_')
      ensures 0 < i && r[i - 1] == '\\'
    {
      if i < |h| {
        assert r[i] == h[i];
      } else {
        assert r[i] == e[i - |h|];
      }
    }
  }

  /** After escaping, every `#` and `_` is preceded by a backslash. */
  lemma {:induction false} EscapeEscapesAll(s: string)
    ensures AllEscaped(Escape(s))
  {
    if s == [] {
      assert Escape(s) == [];
    } else {
      var c, rest := s[0], s[1..];
      assert s == [c] + rest;
      EscapeCons(c, rest);
      EscapeEscapesAll(rest);
      assert AllEscaped(EscapeChar(c));
      if rest != [] {
        EscapeHead(rest);
      }
      EscapedConcat(EscapeChar(c), Escape(rest));
    }
  }
}
