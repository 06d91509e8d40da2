/** Files of the vault: pathlib's suffix rule, `os.path.join`, find_file over
    an abstract directory walk, and the graphics command of include_image.
    Paths are strings whose components are separated by the single character
    `sep` (the host's `os.path.sep`). */
module Paths {
  import opened Common
  import opened Lines

  /** One step of `os.walk`: a directory and the names of the files in it. */
  datatype WalkEntry = WalkEntry(root: string, files: seq<string>)

  /** The last component of a path: everything after its last separator. */
  function LastComponent(path: string, sep: char): string
  {
    if path == [] || path[|path| - 1] == sep then []
    else LastComponent(path[..|path| - 1], sep) + [path[|path| - 1]]
  }

  /** The last component is a tail of the path. */
  lemma {:induction false} LastComponentTail(path: string, sep: char)
    ensures var r := LastComponent(path, sep);
      |r| <= |path| && r == path[|path| - |r|..]
  {
    if path != [] && path[|path| - 1] != sep {
      var init, c := path[..|path| - 1], path[|path| - 1];
      LastComponentTail(init, sep);
      var r0 := LastComponent(init, sep);
      assert path[|path| - |r0| - 1..] == init[|init| - |r0|..] + [c];
    }
  }

  /** The last component holds no separator and follows the last one, or
      is the whole path when it has none. */
  lemma {:induction false} LastComponentAfterSep(path: string, sep: char)
    ensures var r := LastComponent(path, sep);
      && |r| <= |path|
      && sep !in r
      && (|r| == |path| || path[|path| - |r| - 1] == sep)
  {
    if path != [] && path[|path| - 1] != sep {
      var init := path[..|path| - 1];
      LastComponentAfterSep(init, sep);
      var r0 := LastComponent(init, sep);
      assert |r0| == |init| || path[|path| - |r0| - 2] == init[|init| - |r0| - 1];
    }
  }

  /** `s.rfind(c)`, with None for -1. */
  function RFind(s: string, c: char): (r: Option<nat>)
    ensures r.Some? ==> r.value < |s| && s[r.value] == c
    ensures r.Some? ==> forall k :: r.value < k < |s| ==> s[k] != c
    ensures r.None? ==> forall k :: 0 <= k < |s| ==> s[k] != c
  {
    if s == [] then None
    else if s[|s| - 1] == c then Some(|s| - 1)
    else RFind(s[..|s| - 1], c)
  }

  /** `PurePath.suffix` of a file name: the name from its last dot on, when
      that dot is neither the first nor the last character, else "". */
  function Suffix(name: string): string
  {
    match RFind(name, '.')
    case None => ""
    case Some(i) => if 0 < i < |name| - 1 then name[i..] else ""
  }

  /** A suffix is a dot and at least one more character, holds no other
      dot, and leaves at least one character of the name before it. */
  lemma SuffixShape(name: string)
    ensures var r := Suffix(name);
      r == [] || (2 <= |r| < |name| && r[0] == '.' && '.' !in r[1..])
  {
    match RFind(name, '.')
    case None =>
    case Some(i) =>
      if 0 < i < |name| - 1 {
        var r := name[i..];
        assert forall k :: 0 <= k < |r| - 1 ==> r[1..][k] == name[i + 1 + k];
      }
  }

  /** The suffix ends the name. */
  lemma SuffixTail(name: string)
    ensures var r := Suffix(name); |r| <= |name| && r == name[|name| - |r|..]
  {
  }

  /** The suffix is empty exactly when every dot strictly inside the name
      has another dot after it: the last dot, if any, is the first or the
      last character. */
  lemma SuffixEmpty(name: string)
    ensures Suffix(name) == [] <==>
      forall i :: 0 < i < |name| - 1 && name[i] == '.' ==> '.' in name[i + 1..]
  {
    match RFind(name, '.')
    case None =>
    case Some(k) =>
      if 0 < k < |name| - 1 {
        assert '.' !in name[k + 1..];
      } else {
        forall j | 0 < j < |name| - 1 && name[j] == '.' ensures '.' in name[j + 1..] {
          assert name[k] == name[j + 1..][k - j - 1];
        }
      }
  }

  /** `Path(path).suffix != ""`: the last component carries a suffix. */
  predicate HasSuffix(path: string, sep: char)
  {
    Suffix(LastComponent(path, sep)) != ""
  }

  /** `str(Path(path).with_suffix(""))`: the path without the suffix of its
      last component. */
  function StripSuffix(path: string, sep: char): (r: string)
    ensures r + Suffix(LastComponent(path, sep)) == path
  {
    var k := |path| - |Suffix(LastComponent(path, sep))|;
    SuffixEndsPath(path, sep);
    assert path[..k] + path[k..] == path;
    path[..k]
  }

  /** The suffix of the last component ends the whole path. */
  lemma SuffixEndsPath(path: string, sep: char)
    ensures |Suffix(LastComponent(path, sep))| <= |path|
    ensures path[|path| - |Suffix(LastComponent(path, sep))|..] == Suffix(LastComponent(path, sep))
  {
    var last := LastComponent(path, sep);
    var suffix := Suffix(last);
    assert |suffix| <= |path| && suffix == path[|path| - |suffix|..] by {
      LastComponentTail(path, sep);
      SuffixTail(last);
      TailOfTail(path, last, suffix);
    }
  }

  /** A tail of a tail of `a` is a tail of `a`. */
  lemma TailOfTail(a: string, b: string, c: string)
    requires |b| <= |a| && b == a[|a| - |b|..]
    requires |c| <= |b| && c == b[|b| - |c|..]
    ensures c == a[|a| - |c|..]
  {
    assert forall i :: 0 <= i < |c| ==> c[i] == b[|b| - |c| + i] == a[|a| - |c| + i];
  }

  /** `os.path.join(root, name)`: a name starting with the separator replaces
      the root; otherwise one separator is put between them unless the root
      is empty or already ends with one. */
  function Join(root: string, name: string, sep: char): (r: string)
    ensures |name| <= |r| && r[|r| - |name|..] == name
  {
    if name != [] && name[0] == sep then name
    else if root == [] || root[|root| - 1] == sep then root + name
    else root + [sep] + name
  }

  /** The first entry of the walk that lists `name`. */
  predicate FirstHit(walk: seq<WalkEntry>, name: string, i: int)
  {
    0 <= i < |walk| && name in walk[i].files &&
    forall j :: 0 <= j < i ==> name !in walk[j].files
  }

  /** What find_file returns for a walk, as a value: the name joined to the
      root of the first entry listing it, or FileNotFound naming it. */
  function Locate(walk: seq<WalkEntry>, name: string, sep: char): Result<string>
  {
    if walk == [] then Err(FileNotFound(name))
    else if name in walk[0].files then Ok(Join(walk[0].root, name, sep))
    else Locate(walk[1..], name, sep)
  }

  /** The lookup fails exactly when no entry lists the name, and then names
      it; otherwise it joins the name to the root of the first entry that
      lists it. */
  lemma {:induction false} LocateFirstHit(walk: seq<WalkEntry>, name: string, sep: char)
    ensures var r := Locate(walk, name, sep);
      && (r.Err? <==> forall i :: 0 <= i < |walk| ==> name !in walk[i].files)
      && (r.Err? ==> r.error == FileNotFound(name))
      && (r.Ok? ==> exists i :: FirstHit(walk, name, i) && r.value == Join(walk[i].root, name, sep))
  {
    if walk == [] {
    } else if name in walk[0].files {
      assert FirstHit(walk, name, 0);
    } else {
      var r := Locate(walk[1..], name, sep);
      LocateFirstHit(walk[1..], name, sep);
      if r.Ok? {
        var k :| FirstHit(walk[1..], name, k) && r.value == Join(walk[1..][k].root, name, sep);
        assert FirstHit(walk, name, k + 1) by {
          forall j | 0 < j < k + 1 ensures name !in walk[j].files {
            assert walk[j] == walk[1..][j - 1];
          }
          assert walk[k + 1] == walk[1..][k];
        }
      } else {
        forall i | 0 < i < |walk| ensures name !in walk[i].files {
          assert walk[i] == walk[1..][i - 1];
        }
      }
    }
  }

  /** There is only one first hit. */
  lemma FirstHitUnique(walk: seq<WalkEntry>, name: string, i: int, j: int)
    requires FirstHit(walk, name, i) && FirstHit(walk, name, j)
    ensures i == j
  {
  }

  /** find_file: walks the directory listing in order and returns at the
      first directory whose files include `name`. */
  method FindFile(walk: seq<WalkEntry>, name: string, sep: char) returns (r: Result<string>)
    ensures r == Locate(walk, name, sep)
  {
    for i := 0 to |walk|
      invariant forall j :: 0 <= j < i ==> name !in walk[j].files
    {
      if name in walk[i].files {
        LocateFirstHit(walk, name, sep);
        var found := Locate(walk, name, sep);
        var k :| FirstHit(walk, name, k) && found.value == Join(walk[k].root, name, sep);
        FirstHitUnique(walk, name, i, k);
        return Ok(Join(walk[i].root, name, sep));
      }
    }
    LocateFirstHit(walk, name, sep);
    return Err(FileNotFound(name));
  }

  /** The fixed part of the command include_image emits, up to the brace that
      opens the path. */
  const GraphicsPrefix: string := "\\includegraphics[width=\\columnwidth,keepaspectratio]{"

  /** include_image: the path without its suffix, every separator turned into
      `/`, between the braces of a full-width, aspect-keeping
      `\includegraphics`. */
  function IncludeImage(path: string, sep: char): string
  {
    GraphicsPrefix + Replace(StripSuffix(path, sep), sep, "/") + "}"
  }

  /** The command include_image emits is exactly the fixed prefix, the
      path without its suffix with every separator as `/`, and a closing
      brace; no separator other than `/` is left between the braces. */
  lemma ImageCommand(path: string, sep: char)
    ensures var r := IncludeImage(path, sep); var p := StripSuffix(path, sep);
      && |r| == |GraphicsPrefix| + |p| + 1
      && r[..|GraphicsPrefix|] == GraphicsPrefix
      && r[|r| - 1] == '}'
      && (forall i :: 0 <= i < |p| ==> r[|GraphicsPrefix| + i] == if p[i] == sep then '/' else p[i])
      && (sep != '/' ==> sep !in r[|GraphicsPrefix|..|r| - 1])
  {
    BracedPath(GraphicsPrefix, StripSuffix(path, sep), sep);
  }

  /** A path with its separators turned into `/`, after a prefix and before
      a closing brace. */
  lemma BracedPath(prefix: string, p: string, sep: char)
    ensures var r := prefix + Replace(p, sep, "/") + "}";
      && |r| == |prefix| + |p| + 1
      && r[..|prefix|] == prefix
      && r[|r| - 1] == '}'
      && (forall i :: 0 <= i < |p| ==> r[|prefix| + i] == if p[i] == sep then '/' else p[i])
      && (sep != '/' ==> sep !in r[|prefix|..|r| - 1])
  {
    ReplaceByChar(p, sep, "/");
    var q := Replace(p, sep, "/");
    var r := prefix + q + "}";
    assert r[|prefix|..|r| - 1] == q;
    assert forall i :: 0 <= i < |p| ==> r[|prefix| + i] == q[i];
  }

  /** A name without separators is the last component of any path it is
      joined to. */
  lemma JoinedName(root: string, name: string, sep: char)
    requires name != [] && sep !in name
    ensures LastComponent(Join(root, name, sep), sep) == name
  {
    var r := Join(root, name, sep);
    var k := |r| - |name|;
    assert r[k..] == name;
    assert k == 0 || r[k - 1] == sep;
    LastComponentAt(r, sep, k);
  }

  /** The last component starts right after the last separator. */
  lemma {:induction false} LastComponentAt(path: string, sep: char, k: nat)
    requires k <= |path|
    requires sep !in path[k..]
    requires k == 0 || path[k - 1] == sep
    ensures LastComponent(path, sep) == path[k..]
  {
    if k < |path| {
      assert path[|path| - 1] in path[k..];
      var init := path[..|path| - 1];
      assert init[k..] == path[k..|path| - 1];
      LastComponentAt(init, sep, k);
      assert path[k..] == path[k..|path| - 1] + [path[|path| - 1]];
    } else if k > 0 {
    }
  }

  /** The image path include_image emits for a file the walk found: the
      file's directory, the file name without its suffix, separators as
      `/`. */
  lemma ImageOfFoundFile(root: string, name: string, sep: char)
    requires name != [] && sep !in name
    ensures StripSuffix(Join(root, name, sep), sep) + Suffix(name) == Join(root, name, sep)
    ensures HasSuffix(Join(root, name, sep), sep) <==> Suffix(name) != ""
  {
    JoinedName(root, name, sep);
  }
}
