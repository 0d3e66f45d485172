/** The string helpers of the instrumentation pass
    (llvm/lib/Transforms/Instrumentation/EmbedSanitizerDebugInfo.h): the
    file name a report shows, made absolute from the compilation directory,
    and the function name a call-stack frame shows, cut at its parameter
    list. */
module DebugInfo {
  import opened Text

  /** `createAbsoluteFileName(dir_name, file_name)`. */
  function AbsoluteFileName(dir: string, file: string): string
  {
    if |dir| == 0 || |file| == 0 then file
    // has full path already
    else if file[0] == '/' then file
    // `file_name[1]` of a one-character name is the terminating NUL, not '/'
    else if file[0] == '.' && |file| >= 2 && file[1] == '/' then
      if dir[|dir| - 1] == '/' then dir + file[2..] else dir + file[1..]
    else if Occurs(dir, file) then file
    else if dir[|dir| - 1] != '/' then dir + "/" + file
    else dir + file
  }

  /** `file` without a leading `./`. */
  function Relative(file: string): string
  {
    if |file| >= 2 && file[0] == '.' && file[1] == '/' then file[2..] else file
  }

  /** `dir` without one trailing `/`. */
  function TrimSlash(dir: string): string
  {
    if |dir| > 0 && dir[|dir| - 1] == '/' then dir[..|dir| - 1] else dir
  }

  /** The cases in which the file name is returned as it is: an empty
      directory or name, an absolute name, or a name without a leading
      `./` in which the directory occurs anywhere. */
  predicate KeptAsIs(dir: string, file: string)
  {
    |dir| == 0 || |file| == 0 || file[0] == '/' || (Relative(file) == file && Occurs(dir, file))
  }

  /** Either the name comes back unchanged, or the directory (less one
      trailing `/`), a single `/` and the name (less a leading `./`) are
      joined: the seam always gets exactly one `/` of its own. */
  lemma AbsoluteFileNameCases(dir: string, file: string)
    ensures KeptAsIs(dir, file) ==> AbsoluteFileName(dir, file) == file
    ensures !KeptAsIs(dir, file) ==> AbsoluteFileName(dir, file) == TrimSlash(dir) + "/" + Relative(file)
  {
    if !KeptAsIs(dir, file) {
      var n := |dir| - 1;
      if dir[n] == '/' {
        assert dir == dir[..n] + "/";
      }
      if Relative(file) != file {
        assert file[1..] == "/" + file[2..];
      }
    }
  }

  /** The result always ends with the name, less a leading `./`. */
  lemma AbsoluteFileNameEndsWithName(dir: string, file: string)
    ensures var r, rel := AbsoluteFileName(dir, file), Relative(file);
      |rel| <= |r| && r[|r| - |rel|..] == rel
  {
    AbsoluteFileNameCases(dir, file);
  }

  /** A joined result starts with the directory, so the directory occurs
      in it. */
  lemma JoinedStartsWithDir(dir: string, file: string)
    requires !KeptAsIs(dir, file)
    ensures var r := AbsoluteFileName(dir, file);
      |dir| <= |r| && r[..|dir|] == dir && Occurs(dir, r)
  {
    AbsoluteFileNameCases(dir, file);
    var r := AbsoluteFileName(dir, file);
    if dir[|dir| - 1] == '/' {
      assert TrimSlash(dir) + "/" == dir;
    }
    assert r[..|dir|] == dir;
    assert r[0..][..|dir|] == dir;
    OccursIffOccursAt(dir, r);
  }

  /** Applying the helper to its own result changes nothing, unless the
      directory itself starts with `./`. */
  lemma AbsoluteFileNameIdempotent(dir: string, file: string)
    requires !(|dir| >= 2 && dir[0] == '.' && dir[1] == '/')
    ensures AbsoluteFileName(dir, AbsoluteFileName(dir, file)) == AbsoluteFileName(dir, file)
  {
    if !KeptAsIs(dir, file) {
      var r := AbsoluteFileName(dir, file);
      JoinedStartsWithDir(dir, file);
      assert r[0] == dir[0];
      assert |dir| >= 2 ==> r[1] == dir[1];
      AbsoluteFileNameCases(dir, file);
    }
  }

  /** The '(' truncation of `getFuncNameStr`: the demangled name up to its
      first '(', or all of it when there is none. */
  function FuncNameStr(name: string): string
  {
    var idx := Find(name, '(');
    if idx != -1 then name[..idx] else name
  }

  /** The result is the longest prefix of the name without a '(': a
      prefix, free of '(', and either the whole name or followed by '('.
      Truncating again changes nothing. */
  lemma FuncNameStrIsPrefixBeforeParen(name: string)
    ensures var r := FuncNameStr(name);
      && |r| <= |name| && r == name[..|r|] && '(' !in r
      && (|r| == |name| || name[|r|] == '(')
      && FuncNameStr(r) == r
  {
    var r := FuncNameStr(name);
    assert Find(r, '(') == -1;
  }
}
