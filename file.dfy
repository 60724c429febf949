/** An analysed TypeScript file of the repository (repository/file.rs): its module,
    and the imports it declares, each computed at most once. */
module RepositoryFiles {

  import opened Wrappers
  import opened Paths
  import opened ImportPaths
  import ImportLine
  import Modules
  import Child
  import ModuleMappings

  datatype ResolveImportsError =
    | Io(path: Path)
    | ParseImportPath(cause: ImportPathFromImportStringError, path: Path)
    | CannotGetContents(path: Path)

  datatype ModuleError =
    | Module(moduleError: Child.ModuleError)
    | FilePath(filePathError: Child.FromFilePathError)

  /** The import a single line declares: its captured literal, resolved against the
      directory of the file. A line without a match, or whose literal does not resolve,
      declares nothing (the resolution error is only logged). */
  function ImportOfLine(text: string, parent: Path, fs: FileSystem): Option<ImportPath>
  {
    match ImportLine.Capture(text)
    case None => None
    case Some(literal) =>
      match FromImportString(literal, parent, fs)
      case Ok(p) => Some(p)
      case Err(_) => None
  }

  /** The imports of successive lines, in line order. */
  function ImportsOfLines(texts: seq<string>, parent: Path, fs: FileSystem): seq<ImportPath>
  {
    if texts == [] then []
    else
      var init := ImportsOfLines(texts[..|texts| - 1], parent, fs);
      match ImportOfLine(texts[|texts| - 1], parent, fs)
      case None => init
      case Some(p) => init + [p]
  }

  predicate AllRead(lines: seq<LineRead>)
  {
    forall i :: 0 <= i < |lines| ==> lines[i].Line?
  }

  function Texts(lines: seq<LineRead>): (r: seq<string>)
    requires AllRead(lines)
    ensures |r| == |lines| && forall i :: 0 <= i < |lines| ==> r[i] == lines[i].text
  {
    if lines == [] then [] else Texts(lines[..|lines| - 1]) + [lines[|lines| - 1].text]
  }

  /** What `imports()` computes when its cell is empty: an unopenable file fails with
      `CannotGetContents`, a line that cannot be read fails with `Io`, both carrying the
      file's path; otherwise the imports of all lines, resolved against the file's
      parent directory. */
  function ReadImports(filePath: Path, fs: FileSystem): (r: Result<seq<ImportPath>, ResolveImportsError>)
    ensures fs.open(filePath).None? ==> r == Err(CannotGetContents(filePath))
    ensures fs.open(filePath).Some? && !AllRead(fs.open(filePath).value) ==> r == Err(Io(filePath))
    ensures r.Ok? <==> fs.open(filePath).Some? && AllRead(fs.open(filePath).value)
    ensures r.Ok? ==> r.value == ImportsOfLines(Texts(fs.open(filePath).value), Parent(filePath), fs)
  {
    match fs.open(filePath)
    case None => Err(CannotGetContents(filePath))
    case Some(lines) =>
      if AllRead(lines) then Ok(ImportsOfLines(Texts(lines), Parent(filePath), fs))
      else Err(Io(filePath))
  }

  /** What `module()` computes when its cell is empty: the file taken relative to the
      base path, then its first component. */
  function ModuleOfFile(filePath: Path, basePath: Path): (r: Result<Modules.Module, ModuleError>)
    ensures r.Ok? <==> |basePath| < |filePath| && filePath[..|basePath|] == basePath && filePath[|basePath|].Normal?
    ensures r.Ok? ==> r.value == Modules.Module(filePath[|basePath|].name)
    ensures !(|basePath| <= |filePath| && filePath[..|basePath|] == basePath) ==>
      r == Err(FilePath(Child.FilePathError(Child.ImportOutsideRoot(Paths.Render(filePath)))))
    ensures filePath == basePath ==> r == Err(Module(Child.CouldNotGetModule("")))
  {
    match Child.FromFilePath(filePath, basePath)
    case Err(e) => Err(FilePath(e))
    case Ok(c) =>
      assert c.path == filePath[|basePath|..] by {
        assert basePath + c.path == filePath;
      }
      match Child.ModuleOf(c)
      case Err(e) => Err(Module(e))
      case Ok(m) => Ok(m)
  }

  /** The initialiser `imports()` hands to its cell: open the file, then scan its
      lines in order, resolving each captured literal against the parent directory
      and skipping literals that do not resolve; a line that cannot be read ends the
      scan with `Io`. */
  method ScanImports(filePath: Path, fs: FileSystem) returns (r: Result<seq<ImportPath>, ResolveImportsError>)
    ensures r == ReadImports(filePath, fs)
  {
    var reader := fs.open(filePath);
    if reader.None? {
      return Err(CannotGetContents(filePath));
    }
    var lines := reader.value;
    var parent := Parent(filePath);
    var imports: seq<ImportPath> := [];
    var i := 0;
    while i < |lines|
      invariant 0 <= i <= |lines|
      invariant AllRead(lines[..i])
      invariant imports == ImportsOfLines(Texts(lines[..i]), parent, fs)
    {
      if lines[i].ReadFailure? {
        assert !AllRead(lines);
        return Err(Io(filePath));
      }
      var text := lines[i].text;
      ReadOneMoreLine(lines, i, parent, fs);
      ghost var next := ImportsOfLines(Texts(lines[..i + 1]), parent, fs);
      match ImportLine.Capture(text) {
        case Some(literal) =>
          var resolved := FromImportString(literal, parent, fs);
          if resolved.Ok? {
            assert ImportOfLine(text, parent, fs) == Some(resolved.value);
            imports := imports + [resolved.value];
          } else {
            assert ImportOfLine(text, parent, fs).None?;
          }
        case None =>
          assert ImportOfLine(text, parent, fs).None?;
      }
      assert imports == next;
      i := i + 1;
    }
    assert lines[..i] == lines;
    return Ok(imports);
  }

  /** `RepositoryFile`: the file's path, the repository root, the alias mappings it was
      given (stored, never consulted), and the two write-once cells. */
  class RepositoryFile {
    const filePath: Path
    const basePath: Path
    const importMappings: set<ModuleMappings.ModuleMapping>
    var moduleCell: Option<Modules.Module>
    var importsCell: Option<seq<ImportPath>>

    constructor(filePath: Path, basePath: Path, importMappings: set<ModuleMappings.ModuleMapping>)
      ensures this.filePath == filePath && this.basePath == basePath && this.importMappings == importMappings
      ensures moduleCell.None? && importsCell.None?
    {
      this.filePath := filePath;
      this.basePath := basePath;
      this.importMappings := importMappings;
      moduleCell := None;
      importsCell := None;
    }

    /** Each filled cell holds what its computation yields on `fs`. */
    predicate Consistent(fs: FileSystem)
      reads this
    {
      && (importsCell.Some? ==> ReadImports(filePath, fs) == Ok(importsCell.value))
      && (moduleCell.Some? ==> ModuleOfFile(filePath, basePath) == Ok(moduleCell.value))
    }

    /** `imports()`: the cached list if there is one; otherwise the lines are scanned in
        order and the list is cached only on success. */
    method Imports(fs: FileSystem) returns (r: Result<seq<ImportPath>, ResolveImportsError>)
      modifies this
      ensures old(importsCell).Some? ==> r == Ok(old(importsCell).value) && importsCell == old(importsCell)
      ensures old(importsCell).None? ==> r == ReadImports(filePath, fs)
      ensures old(importsCell).None? ==> importsCell == (if r.Ok? then Some(r.value) else None)
      ensures moduleCell == old(moduleCell)
      ensures old(Consistent(fs)) ==> r == ReadImports(filePath, fs) && Consistent(fs)
    {
      if importsCell.Some? {
        return Ok(importsCell.value);
      }
      r := ScanImports(filePath, fs);
      if r.Ok? {
        importsCell := Some(r.value);
      }
    }

    /** `module()`: the cached module if there is one; otherwise it is computed from the
        paths and cached only on success. */
    method Module() returns (r: Result<Modules.Module, ModuleError>)
      modifies this
      ensures old(moduleCell).Some? ==> r == Ok(old(moduleCell).value) && moduleCell == old(moduleCell)
      ensures old(moduleCell).None? ==> r == ModuleOfFile(filePath, basePath)
      ensures old(moduleCell).None? ==> moduleCell == (if r.Ok? then Some(r.value) else None)
      ensures importsCell == old(importsCell)
      ensures forall fs :: old(Consistent(fs)) ==> r == ModuleOfFile(filePath, basePath) && Consistent(fs)
    {
      if moduleCell.Some? {
        return Ok(moduleCell.value);
      }
      var child := Child.FromFilePath(filePath, basePath);
      if child.Err? {
        return Err(ModuleError.FilePath(child.error));
      }
      var m := Child.ModuleOf(child.value);
      if m.Err? {
        return Err(ModuleError.Module(m.error));
      }
      moduleCell := Some(m.value);
      return Ok(m.value);
    }
  }

  /** One more line read: its import, if any, follows those of the lines before it. */
  lemma ReadOneMoreLine(lines: seq<LineRead>, i: nat, parent: Path, fs: FileSystem)
    requires i < |lines| && AllRead(lines[..i]) && lines[i].Line?
    ensures AllRead(lines[..i + 1])
    ensures ImportOfLine(lines[i].text, parent, fs).None? ==>
      ImportsOfLines(Texts(lines[..i + 1]), parent, fs) == ImportsOfLines(Texts(lines[..i]), parent, fs)
    ensures ImportOfLine(lines[i].text, parent, fs).Some? ==>
      ImportsOfLines(Texts(lines[..i + 1]), parent, fs) == ImportsOfLines(Texts(lines[..i]), parent, fs) + [ImportOfLine(lines[i].text, parent, fs).value]
  {
    assert lines[..i + 1] == lines[..i] + [lines[i]];
    assert Texts(lines[..i + 1]) == Texts(lines[..i]) + [lines[i].text];
    assert Texts(lines[..i + 1])[..i] == Texts(lines[..i]);
  }

  /** Reading the lines in two parts gives the imports of the first part, then those of
      the second: line order is kept. */
  lemma {:induction false} ImportsOfLinesAppend(a: seq<string>, b: seq<string>, parent: Path, fs: FileSystem)
    ensures ImportsOfLines(a + b, parent, fs) == ImportsOfLines(a, parent, fs) + ImportsOfLines(b, parent, fs)
    decreases |b|
  {
    if b != [] {
      var b' := b[..|b| - 1];
      assert (a + b)[..|a + b| - 1] == a + b';
      assert (a + b)[|a + b| - 1] == b[|b| - 1];
      ImportsOfLinesAppend(a, b', parent, fs);
    } else {
      assert a + b == a;
    }
  }

  /** A single line yields at most one import: the resolution of the literal captured
      by the leftmost match of the import pattern, and nothing when the line holds no
      match. */
  lemma ImportOfOneLine(text: string, parent: Path, fs: FileSystem)
    ensures |ImportsOfLines([text], parent, fs)| <= 1
    ensures ImportsOfLines([text], parent, fs) != [] ==>
      exists n, literal ::
        && ImportLine.MatchesAt(text, n, literal) && ImportLine.NoMatchIn(text, 0, n)
        && FromImportString(literal, parent, fs) == Ok(ImportsOfLines([text], parent, fs)[0])
    ensures (forall n, c :: 0 <= n <= |text| ==> !ImportLine.MatchesAt(text, n, c)) ==> ImportsOfLines([text], parent, fs) == []
  {
    ImportsOfSingleLine(text, parent, fs);
    ImportLine.CaptureIsLeftmostMatch(text);
    if ImportsOfLines([text], parent, fs) != [] {
      var literal := ImportLine.Capture(text).value;
      var n :| 0 <= n <= |text| && ImportLine.MatchesAt(text, n, literal) && ImportLine.NoMatchIn(text, 0, n);
      assert FromImportString(literal, parent, fs) == Ok(ImportsOfLines([text], parent, fs)[0]);
    }
  }

  /** The imports of a single line are that line's import, if it has one. */
  lemma ImportsOfSingleLine(text: string, parent: Path, fs: FileSystem)
    ensures ImportOfLine(text, parent, fs).None? ==> ImportsOfLines([text], parent, fs) == []
    ensures ImportOfLine(text, parent, fs).Some? ==> ImportsOfLines([text], parent, fs) == [ImportOfLine(text, parent, fs).value]
  {
    assert [text][..0] == [];
  }

  /** Every import comes from some line, resolved against the parent directory, and
      lines without a match of the pattern contribute nothing. */
  lemma {:induction false} ImportsComeFromLines(texts: seq<string>, parent: Path, fs: FileSystem)
    ensures forall p :: p in ImportsOfLines(texts, parent, fs) ==>
      exists i :: 0 <= i < |texts| && ImportOfLine(texts[i], parent, fs) == Some(p)
    ensures (forall i :: 0 <= i < |texts| ==> ImportLine.Capture(texts[i]).None?) ==> ImportsOfLines(texts, parent, fs) == []
    decreases |texts|
  {
    if texts != [] {
      var init := texts[..|texts| - 1];
      ImportsComeFromLines(init, parent, fs);
      forall p | p in ImportsOfLines(texts, parent, fs)
        ensures exists i :: 0 <= i < |texts| && ImportOfLine(texts[i], parent, fs) == Some(p)
      {
        if p in ImportsOfLines(init, parent, fs) {
          var i :| 0 <= i < |init| && ImportOfLine(init[i], parent, fs) == Some(p);
          assert texts[i] == init[i];
        } else {
          assert ImportOfLine(texts[|texts| - 1], parent, fs) == Some(p);
        }
      }
      if forall i :: 0 <= i < |texts| ==> ImportLine.Capture(texts[i]).None? {
        assert forall i :: 0 <= i < |init| ==> init[i] == texts[i];
      }
    }
  }

  /** An import statement whose literal cannot be resolved is skipped, and the lines
      after it are still scanned. */
  lemma UnresolvableImportIsSkipped(a: seq<string>, text: string, b: seq<string>, parent: Path, fs: FileSystem, literal: string)
    requires ImportLine.Capture(text) == Some(literal) && FromImportString(literal, parent, fs).Err?
    ensures ImportsOfLines(a + [text] + b, parent, fs) == ImportsOfLines(a, parent, fs) + ImportsOfLines(b, parent, fs)
  {
    ImportsOfLinesAppend(a + [text], b, parent, fs);
    ImportsOfLinesAppend(a, [text], parent, fs);
    assert [text][..0] == [];
  }
}
