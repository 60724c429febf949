/** Resolution of an import literal to a file on disk (import_path.rs). The file
    system is a parameter: `exists` and `canonicalize` act on candidate path texts,
    and `canonicalize` yields an absolute Path or fails. */
module ImportPaths {

  import opened Wrappers
  import opened Paths
  import Text

  /** One line as delivered by the buffered reader: its text, or a read error. */
  datatype LineRead = Line(text: string) | ReadFailure

  datatype FileSystem = FileSystem(
    pathExists: string -> bool,
    canonicalize: string -> Option<Path>,
    open: Path -> Option<seq<LineRead>>)

  datatype ImportPathFromImportStringError = CannotFindFile(text: string)

  /** A canonical path that an import statement resolved to. */
  datatype ImportPath = ImportPath(path: Path)

  /** The three extended candidates, in the order they are tried. */
  function Candidates(base: Path, literal: string): seq<string>
  {
    [JoinText(base, literal + ".ts"), JoinText(base, literal + ".d.ts"), JoinText(base, literal + "/index.ts")]
  }

  /** Reference definition of the fallback: the first existing candidate, else `fallback`. */
  function FirstExisting(candidates: seq<string>, pathExists: string -> bool, fallback: string): (r: string)
    ensures (forall i :: 0 <= i < |candidates| ==> !pathExists(candidates[i])) ==> r == fallback
    ensures (exists i :: 0 <= i < |candidates| && pathExists(candidates[i])) ==>
              exists i :: 0 <= i < |candidates| && r == candidates[i] && pathExists(r)
                && forall j :: 0 <= j < i ==> !pathExists(candidates[j])
  {
    if candidates == [] then fallback
    else if pathExists(candidates[0]) then candidates[0]
    else
      var r := FirstExisting(candidates[1..], pathExists, fallback);
      assert (exists i :: 0 <= i < |candidates| && pathExists(candidates[i])) ==>
               exists i :: 0 <= i < |candidates[1..]| && pathExists(candidates[1..][i]) by {
        if exists i :: 0 <= i < |candidates| && pathExists(candidates[i]) {
          var i :| 0 <= i < |candidates| && pathExists(candidates[i]);
          assert candidates[1..][i - 1] == candidates[i];
        }
      }
      assert (exists i :: 0 <= i < |candidates[1..]| && pathExists(candidates[1..][i])) ==>
               exists i :: 0 <= i < |candidates| && r == candidates[i] && pathExists(r)
                 && forall j :: 0 <= j < i ==> !pathExists(candidates[j]) by {
        if exists i :: 0 <= i < |candidates[1..]| && pathExists(candidates[1..][i]) {
          var i :| 0 <= i < |candidates[1..]| && r == candidates[1..][i] && pathExists(r)
                 && forall j :: 0 <= j < i ==> !pathExists(candidates[1..][j]);
          assert forall j :: 0 <= j < i + 1 ==> !pathExists(candidates[j]) by {
            forall j | 0 <= j < i + 1 ensures !pathExists(candidates[j]) {
              if j > 0 { assert candidates[j] == candidates[1..][j - 1]; }
            }
          }
        }
      }
      r
  }

  /** The path text that is handed to `canonicalize` (import_path.rs:29-51). */
  function ChosenPath(literal: string, base: Path, pathExists: string -> bool): string
  {
    if Text.EndsWith(literal, ".ts") then
      JoinText(base, literal)
    else
      var tsPath := JoinText(base, literal + ".ts");
      if pathExists(tsPath) then tsPath
      else
        var dTsPath := JoinText(base, literal + ".d.ts");
        if pathExists(dTsPath) then dTsPath
        else
          var indexTsPath := JoinText(base, literal + "/index.ts");
          if pathExists(indexTsPath) then indexTsPath
          else JoinText(base, literal)
  }

  /** `ImportPath::from_import_string`. */
  function FromImportString(literal: string, base: Path, fs: FileSystem): (r: Result<ImportPath, ImportPathFromImportStringError>)
    ensures r.Ok? <==> fs.canonicalize(ChosenPath(literal, base, fs.pathExists)).Some?
    ensures r.Ok? ==> r.value.path == fs.canonicalize(ChosenPath(literal, base, fs.pathExists)).value
    ensures r.Err? ==> r.error == CannotFindFile(ChosenPath(literal, base, fs.pathExists))
  {
    var resolved := ChosenPath(literal, base, fs.pathExists);
    match fs.canonicalize(resolved)
    case Some(p) => Ok(ImportPath(p))
    case None => Err(CannotFindFile(resolved))
  }

  /** A literal that already ends in ".ts" (".d.ts" included) is joined as it is:
      no candidate is consulted, whatever exists. */
  lemma TsLiteralIsNotExtended(literal: string, base: Path, pathExists: string -> bool, pathExists': string -> bool)
    requires Text.EndsWith(literal, ".ts")
    ensures ChosenPath(literal, base, pathExists) == JoinText(base, literal)
    ensures ChosenPath(literal, base, pathExists) == ChosenPath(literal, base, pathExists')
  {
  }

  /** Any other literal resolves to the first existing extended candidate, in the
      order ".ts", ".d.ts", "/index.ts", and falls back to the literal itself. */
  lemma ChosenPathIsFirstExisting(literal: string, base: Path, pathExists: string -> bool)
    requires !Text.EndsWith(literal, ".ts")
    ensures ChosenPath(literal, base, pathExists) == FirstExisting(Candidates(base, literal), pathExists, JoinText(base, literal))
  {
    var c := Candidates(base, literal);
    var fallback := JoinText(base, literal);
    assert c[1..] == [c[1], c[2]] && c[1..][1..] == [c[2]] && c[1..][1..][1..] == [];
    assert FirstExisting([], pathExists, fallback) == fallback;
    assert FirstExisting([c[2]], pathExists, fallback) == if pathExists(c[2]) then c[2] else fallback;
    assert FirstExisting([c[1], c[2]], pathExists, fallback)
        == if pathExists(c[1]) then c[1] else FirstExisting([c[2]], pathExists, fallback);
  }
}
