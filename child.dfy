/** A path inside the repository, relative to its root, with its barrel flag
    (repository/child.rs). */
module Child {

  import opened Wrappers
  import opened Paths
  import opened Modules
  import opened ImportPaths

  datatype FromPathError = ImportOutsideRoot(text: string)
  datatype FromImportPathError = ImportPathError(cause: FromPathError)
  datatype FromFilePathError = FilePathError(cause: FromPathError)
  datatype FromRepositoryFileError = File(importError: FromImportPathError) | FilePath(fileError: FromFilePathError)
  datatype ModuleError = CouldNotGetModule(text: string) | ModuleConversionError(cause: ModuleFromComponentError)

  /** `RepositoryChildPath`: equality is derived (path and flag). */
  datatype ChildPath = ChildPath(path: Path, barrel: bool)

  const BarrelNames: set<string> := {"index.ts", "testing.ts"}

  /** The path's last component is a barrel file name. */
  predicate IsBarrelPath(p: Path)
  {
    p != [] && p[|p| - 1].Normal? && p[|p| - 1].name in BarrelNames
  }

  /** Every child path the code constructs carries the flag its path dictates. */
  predicate WellFormed(c: ChildPath)
  {
    c.barrel == IsBarrelPath(c.path)
  }

  /** `Display`: only the relative path is shown. */
  function Render(c: ChildPath): string
  {
    Paths.Render(c.path)
  }

  /** `from_path`: strip the root component-wise and flag barrel file names. */
  function FromPath(path: Path, root: Path): (r: Result<ChildPath, FromPathError>)
    ensures r.Ok? <==> |root| <= |path| && path[..|root|] == root
    ensures r.Ok? ==> root + r.value.path == path
    ensures r.Ok? ==> (r.value.barrel <==> r.value.path != [] && r.value.path[|r.value.path| - 1] in {Normal("index.ts"), Normal("testing.ts")})
    ensures r.Err? ==> r.error == ImportOutsideRoot(Paths.Render(path))
  {
    match StripPrefix(path, root)
    case Some(relative) =>
      var fileName := match FileName(relative) case Some(f) => f case None => "";
      Ok(ChildPath(relative, fileName == "index.ts" || fileName == "testing.ts"))
    case None =>
      Err(ImportOutsideRoot(Paths.Render(path)))
  }

  /** `from_import_path`: `from_path` on the resolved import against the root. */
  function FromImportPath(importPath: ImportPath, root: Path): (r: Result<ChildPath, FromImportPathError>)
    ensures FromPath(importPath.path, root).Ok? ==> r == Ok(FromPath(importPath.path, root).value)
    ensures FromPath(importPath.path, root).Err? ==> r == Err(ImportPathError(FromPath(importPath.path, root).error))
  {
    match FromPath(importPath.path, root)
    case Ok(c) => Ok(c)
    case Err(e) => Err(ImportPathError(e))
  }

  /** `from_file_path`: `from_path` on an analysed file against the root. */
  function FromFilePath(filePath: Path, root: Path): (r: Result<ChildPath, FromFilePathError>)
    ensures FromPath(filePath, root).Ok? ==> r == Ok(FromPath(filePath, root).value)
    ensures FromPath(filePath, root).Err? ==> r == Err(FilePathError(FromPath(filePath, root).error))
  {
    match FromPath(filePath, root)
    case Ok(c) => Ok(c)
    case Err(e) => Err(FilePathError(e))
  }

  /** `from_repository_file`: a file's own path against the file's base path. */
  function FromRepositoryFile(filePath: Path, basePath: Path): (r: Result<ChildPath, FromRepositoryFileError>)
    ensures FromPath(filePath, basePath).Ok? ==> r == Ok(FromPath(filePath, basePath).value)
    ensures FromPath(filePath, basePath).Err? ==> r == Err(FilePath(FilePathError(FromPath(filePath, basePath).error)))
  {
    match FromFilePath(filePath, basePath)
    case Ok(c) => Ok(c)
    case Err(e) => Err(FilePath(e))
  }

  /** `module()`: the first component of the relative path, which must be a plain name. */
  function ModuleOf(c: ChildPath): (r: Result<Module, ModuleError>)
    ensures r.Ok? <==> c.path != [] && c.path[0].Normal?
    ensures r.Ok? ==> r.value == Module(c.path[0].name)
    ensures c.path == [] ==> r == Err(CouldNotGetModule(""))
    ensures c.path != [] && !c.path[0].Normal? ==> r == Err(ModuleConversionError(InvalidComponent(ComponentText(c.path[0]))))
  {
    if c.path == [] then
      Err(CouldNotGetModule(Paths.Render(c.path)))
    else
      match FromComponent(c.path[0])
      case Ok(m) => Ok(m)
      case Err(e) => Err(ModuleConversionError(e))
  }

  /** Stripping the root and putting it back gives the original path, and the flag
      is the one the path dictates. */
  lemma {:induction false} FromPathRoundTrip(root: Path, relative: Path)
    ensures FromPath(root + relative, root).Ok?
    ensures FromPath(root + relative, root).value.path == relative
    ensures WellFormed(FromPath(root + relative, root).value)
  {
    assert (root + relative)[..|root|] == root;
    var c := FromPath(root + relative, root).value;
    assert root + c.path == root + relative;
    assert c.path == (root + c.path)[|root|..] == (root + relative)[|root|..] == relative;
  }

  /** For child paths built by the code, derived equality is equality of paths,
      and so equality of rendered text whenever rendering tells the paths apart. */
  lemma WellFormedEquality(a: ChildPath, b: ChildPath)
    requires WellFormed(a) && WellFormed(b)
    ensures a == b <==> a.path == b.path
  {
  }

  /** The module of a file is the first directory under the root, whatever lies below it. */
  lemma {:induction false} ModuleOfFileUnderRoot(root: Path, dir: string, rest: Path)
    ensures FromPath(root + [Normal(dir)] + rest, root).Ok?
    ensures ModuleOf(FromPath(root + [Normal(dir)] + rest, root).value) == Ok(Module(dir))
  {
    FromPathRoundTrip(root, [Normal(dir)] + rest);
    assert root + [Normal(dir)] + rest == root + ([Normal(dir)] + rest);
  }

  /** The root itself is inside the repository, but it has no module. */
  lemma RootHasNoModule(root: Path)
    ensures FromPath(root, root) == Ok(ChildPath([], false))
    ensures ModuleOf(FromPath(root, root).value) == Err(CouldNotGetModule(""))
  {
    assert root[..|root|] == root;
  }
}
