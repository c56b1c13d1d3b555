/**
 * Filesystem paths as boost::filesystem (version 3) sees them: a sequence
 * of components, the last one the file name. Covers normalize and the
 * pieces of fs::path the rename loop uses: parent_path, filename,
 * extension, replace_extension and operator/.
 */
module Paths {
  import opened Wrappers

  /** A path as the sequence of its components; the empty path has none. */
  type Path = seq<string>

  /** fs::operator/: one more component. */
  function Append(p: Path, component: string): (r: Path)
    ensures |r| == |p| + 1 && r[..|p|] == p && r[|p|] == component
  {
    p + [component]
  }

  /** std::accumulate(first, last, acc, fs::operator/): fold the components onto acc. */
  function Accumulate(acc: Path, rest: seq<string>): Path
    decreases |rest|
  {
    if rest == [] then acc else Accumulate(Append(acc, rest[0]), rest[1..])
  }

  /** The fold appends every remaining component, in order. */
  lemma {:induction false} AccumulateAppends(acc: Path, rest: seq<string>)
    ensures Accumulate(acc, rest) == acc + rest
    decreases |rest|
  {
    if rest != [] {
      AccumulateAppends(Append(acc, rest[0]), rest[1..]);
      assert Append(acc, rest[0]) + rest[1..] == acc + rest;
    }
  }

  /** path.string().at(0) == '~' for a non-empty path: its first component starts with a tilde. */
  predicate StartsWithTilde(p: Path) {
    |p| > 0 && |p[0]| > 0 && p[0][0] == '~'
  }

  /**
   * normalize: a path whose text starts with '~' becomes HOME followed by
   * all its components but the first (the whole first component is
   * dropped, so "~x/a" becomes HOME/a); any other path, the empty one
   * included, is returned unchanged.
   */
  function Normalize(path: Path, home: Path): (r: Path)
    ensures !StartsWithTilde(path) ==> r == path
    ensures StartsWithTilde(path) ==> r == home + path[1..]
  {
    if |path| > 0 && path[0] != [] && path[0][0] == '~' then
      AccumulateAppends(home, path[1..]);
      Accumulate(home, path[1..])
    else
      path
  }

  /** path.filename(): the last component, empty for the empty path. */
  function FileName(p: Path): (r: string)
    ensures p != [] ==> p == ParentPath(p) + [r]
  {
    if p == [] then "" else p[|p| - 1]
  }

  /** path.parent_path(): every component but the last. */
  function ParentPath(p: Path): (r: Path)
    ensures r <= p && |r| == if p == [] then 0 else |p| - 1
  {
    if p == [] then [] else p[..|p| - 1]
  }

  /** parent_path() and filename() take apart what operator/ puts together. */
  lemma ParentAndFileNameOfAppend(p: Path, component: string)
    ensures ParentPath(Append(p, component)) == p && FileName(Append(p, component)) == component
  {
  }

  predicate NoDot(s: string) {
    forall j :: 0 <= j < |s| ==> s[j] != '.'
  }

  /** The offset of the last '.' in s, if any (std::string::rfind). */
  function LastDot(s: string): (r: Option<nat>)
    ensures r.Some? ==> r.value < |s| && s[r.value] == '.'
    decreases |s|
  {
    if s == [] then None
    else if s[|s| - 1] == '.' then Some(|s| - 1)
    else LastDot(s[..|s| - 1])
  }

  /** LastDot finds a '.' with no '.' after it, and finds none exactly when there is none. */
  lemma {:induction false} LastDotSpec(s: string)
    ensures var r := LastDot(s);
      && (r.Some? ==> r.value < |s| && s[r.value] == '.' && NoDot(s[r.value + 1..]))
      && (r.None? <==> NoDot(s))
    decreases |s|
  {
    if s != [] && s[|s| - 1] != '.' {
      var front := s[..|s| - 1];
      LastDotSpec(front);
      var r := LastDot(front);
      if r.Some? {
        assert s[r.value + 1..] == front[r.value + 1..] + [s[|s| - 1]];
      }
      if NoDot(front) {
        assert s == front + [s[|s| - 1]];
      }
    }
  }

  /**
   * path.extension() of a file name: from its last '.' to the end, dot
   * included; empty when there is no dot and for "." and "..".
   */
  function Extension(name: string): (e: string)
    ensures |e| <= |name|
  {
    if name == "." || name == ".." then ""
    else match LastDot(name)
      case None => ""
      case Some(i) => name[i..]
  }

  /** An extension is empty or a '.' with no '.' after it, and it is a suffix of the name. */
  lemma ExtensionShape(name: string)
    ensures var e := Extension(name);
      && (e == "" || (e[0] == '.' && NoDot(e[1..])))
      && |e| <= |name| && e == name[|name| - |e|..]
      && (e == "" <==> name == "." || name == ".." || NoDot(name))
  {
    LastDotSpec(name);
    var r := LastDot(name);
    if name != "." && name != ".." && r.Some? {
      assert name[r.value..][1..] == name[r.value + 1..];
    }
  }

  /** The file name without its extension. */
  function Stripped(name: string): (bare: string)
    ensures bare + Extension(name) == name
  {
    ExtensionShape(name);
    name[..|name| - |Extension(name)|]
  }

  /**
   * path.replace_extension(ext) on a file name: drop its own extension,
   * then append ext, adding a '.' when ext does not start with one.
   */
  function ReplaceExtension(name: string, ext: string): (r: string)
    ensures ext == "" || ext[0] == '.' ==> r == Stripped(name) + ext
    ensures ext != "" && ext[0] != '.' ==> r == Stripped(name) + "." + ext
  {
    var bare := Stripped(name);
    if ext == "" then bare else if ext[0] == '.' then bare + ext else bare + "." + ext
  }

  /**
   * The new name carries the extension it was given: a non-empty extension
   * whatever the stripped name holds (unless the result is "." or ".."),
   * and no extension when the stripped name has no dot.
   */
  lemma ReplaceExtensionKeeps(name: string, ext: string)
    requires ext == "" || (ext[0] == '.' && NoDot(ext[1..]))
    ensures var r := ReplaceExtension(name, ext);
      && (ext != "" && r != "." && r != ".." ==> Extension(r) == ext)
      && (ext == "" && NoDot(Stripped(name)) ==> Extension(r) == "")
  {
    var bare := Stripped(name);
    if ext != "" && bare + ext != "." && bare + ext != ".." {
      ExtensionOfSuffixed(bare, ext);
    } else if ext == "" && NoDot(bare) {
      assert bare + ext == bare;
      LastDotSpec(bare);
    }
  }

  /** Any name followed by a non-empty extension has exactly that extension, unless it is "." or "..". */
  lemma ExtensionOfSuffixed(bare: string, ext: string)
    requires ext != "" && ext[0] == '.' && NoDot(ext[1..])
    requires bare + ext != "." && bare + ext != ".."
    ensures Extension(bare + ext) == ext
  {
    var name := bare + ext;
    LastDotSpec(name);
    assert name[|bare|] == '.';
    assert name[LastDot(name).value..] == ext;
  }

  /**
   * make_path_from_stem in the rename loop: the path `from`'s parent, joined
   * with the stem given the path `from`'s extension.
   */
  function MakePathFromStem(from: Path, stem: string): (r: Path)
    ensures |r| >= 1 && ParentPath(r) == ParentPath(from)
  {
    Append(ParentPath(from), ReplaceExtension(stem, Extension(FileName(from))))
  }

  /** A name without a dot, followed by an extension, has exactly that extension. */
  lemma ExtensionOfAppended(stem: string, ext: string)
    requires stem != [] && NoDot(stem)
    requires ext == "" || (ext[0] == '.' && NoDot(ext[1..]))
    ensures Extension(stem + ext) == ext
  {
    var name := stem + ext;
    assert name != "." && name != ".." by {
      assert name[0] == stem[0];
    }
    if ext == "" {
      assert name == stem;
    } else {
      LastDotSpec(name);
      var i := LastDot(name);
      assert name[|stem|] == '.';
      assert name[|stem| + 1..] == ext[1..];
    }
  }

  /**
   * For a non-empty stem without a dot, the new path keeps the path `from`'s
   * parent and extension, and its file name is the stem followed by that
   * extension.
   */
  lemma MakePathFromStemShape(from: Path, stem: string)
    requires stem != [] && NoDot(stem)
    ensures var r := MakePathFromStem(from, stem);
      && ParentPath(r) == ParentPath(from)
      && FileName(r) == stem + Extension(FileName(from))
      && Extension(FileName(r)) == Extension(FileName(from))
  {
    var ext := Extension(FileName(from));
    ExtensionShape(FileName(from));
    assert Extension(stem) == "" by {
      LastDotSpec(stem);
      assert stem != "." && stem != ".." by { assert stem[0] != '.'; }
    }
    assert stem[..|stem|] == stem;
    ExtensionOfAppended(stem, ext);
  }
}
