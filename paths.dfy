/** Paths as sequences of components, mirroring std::path::Component. An
    absolute path starts with RootDir. */
module Paths {

  import opened Wrappers
  import Text

  datatype Component =
    | Prefix(text: string)
    | RootDir
    | CurDir
    | ParentDir
    | Normal(name: string)

  type Path = seq<Component>

  /** The text of one component (module.rs `component_to_string`). */
  function ComponentText(c: Component): string
  {
    match c
    case Normal(name) => name
    case RootDir => "/"
    case CurDir => "."
    case ParentDir => ".."
    case Prefix(text) => text
  }

  /** `Path::display`: components joined by '/', the root contributing the leading '/'. */
  function Render(p: Path): string
  {
    if p == [] then ""
    else if |p| == 1 then ComponentText(p[0])
    else if p[0] == RootDir then "/" + Render(p[1..])
    else ComponentText(p[0]) + "/" + Render(p[1..])
  }

  /** `Path::strip_prefix`: component-wise prefix removal. */
  function StripPrefix(path: Path, root: Path): (r: Option<Path>)
    ensures r.Some? <==> |root| <= |path| && path[..|root|] == root
    ensures r.Some? ==> root + r.value == path
  {
    if |root| <= |path| && path[..|root|] == root then
      assert root + path[|root|..] == path;
      Some(path[|root|..])
    else
      None
  }

  /** `Path::file_name`: the last component when it is a plain name. */
  function FileName(p: Path): (r: Option<string>)
    ensures r.Some? <==> p != [] && p[|p| - 1].Normal?
    ensures r.Some? ==> r.value == p[|p| - 1].name
  {
    if p != [] && p[|p| - 1].Normal? then Some(p[|p| - 1].name) else None
  }

  /** `FileParentPath::from_file_path`: `parent()`, or the empty path when there is none. */
  function Parent(p: Path): (r: Path)
    ensures p != [] && (p[|p| - 1].Normal? || p[|p| - 1].CurDir? || p[|p| - 1].ParentDir?) ==> p == r + [p[|p| - 1]]
    ensures !(p != [] && (p[|p| - 1].Normal? || p[|p| - 1].CurDir? || p[|p| - 1].ParentDir?)) ==> r == []
  {
    if p != [] && (p[|p| - 1].Normal? || p[|p| - 1].CurDir? || p[|p| - 1].ParentDir?) then
      assert p == p[..|p| - 1] + [p[|p| - 1]];
      p[..|p| - 1]
    else
      []
  }

  /** `Path::join` of a path given as text: an absolute text replaces the base,
      otherwise a '/' is inserted unless the base is empty or already ends in '/'. */
  function JoinText(base: Path, rel: string): (r: string)
    ensures Text.EndsWith(r, rel)
    ensures Text.StartsWith(rel, "/") ==> r == rel
    ensures !Text.StartsWith(rel, "/") ==> Text.StartsWith(r, Render(base))
    ensures Render(base) == "" ==> r == rel
    ensures !Text.StartsWith(rel, "/") && Render(base) != "" ==>
      r == Render(base) + (if Text.EndsWith(Render(base), "/") then "" else "/") + rel
  {
    var b := Render(base);
    if Text.StartsWith(rel, "/") || b == "" then rel
    else if b[|b| - 1] == '/' then b + rel
    else b + "/" + rel
  }

  /** A root, if any, only as the first component. */
  predicate RootOnlyFirst(p: Path)
  {
    forall i :: 0 < i < |p| ==> p[i] != RootDir
  }

  /** The paths std builds: a root only at the start, and every other component
      rendering to a non-empty text that does not end in '/'. */
  predicate Normalised(p: Path)
  {
    && RootOnlyFirst(p)
    && (forall i :: 0 <= i < |p| && p[i] != RootDir ==>
          ComponentText(p[i]) != "" && ComponentText(p[i])[|ComponentText(p[i])| - 1] != '/')
  }

  /** What a component contributes in front of the rest of a longer path. */
  function Lead(c: Component): string
  {
    if c == RootDir then "/" else ComponentText(c) + "/"
  }

  /** One unfolding of Render on a path of two or more components. */
  lemma RenderCons(p: Path)
    requires |p| >= 2
    ensures Render(p) == Lead(p[0]) + Render(p[1..])
  {
  }

  /** Rendering a path with one more component: the root is followed directly by it,
      any other path by a '/' and then it. */
  lemma {:induction false} RenderPush(p: Path, c: Component)
    requires RootOnlyFirst(p)
    ensures p == [] ==> Render(p + [c]) == ComponentText(c)
    ensures p == [RootDir] ==> Render(p + [c]) == "/" + ComponentText(c)
    ensures p != [] && p != [RootDir] ==> Render(p + [c]) == Render(p) + "/" + ComponentText(c)
    decreases |p|
  {
    if |p| == 1 {
      RenderCons(p + [c]);
      assert (p + [c])[1..] == [c];
    } else if |p| >= 2 {
      assert RootOnlyFirst(p[1..]) && p[1..][0] != RootDir by {
        forall i | 0 <= i < |p| - 1 ensures p[1..][i] == p[i + 1] { }
      }
      RenderPush(p[1..], c);
      RenderPushStep(p, c);
    }
  }

  /** The inductive step of RenderPush: pushing onto the tail carries over to the path. */
  lemma RenderPushStep(p: Path, c: Component)
    requires |p| >= 2
    requires Render(p[1..] + [c]) == Render(p[1..]) + "/" + ComponentText(c)
    ensures Render(p + [c]) == Render(p) + "/" + ComponentText(c)
  {
    var q := p + [c];
    assert q[0] == p[0] && q[1..] == p[1..] + [c];
    RenderCons(q);
    RenderCons(p);
    calc {
      Render(q);
      Lead(p[0]) + (Render(p[1..]) + "/" + ComponentText(c));
      { Regroup(Lead(p[0]), Render(p[1..]), ComponentText(c)); }
      Render(p) + "/" + ComponentText(c);
    }
  }

  /** Regrouping a text joined around a '/'. */
  lemma Regroup(a: string, b: string, t: string)
    ensures a + (b + "/" + t) == (a + b) + "/" + t
  {
  }

  /** Dropping the first component keeps a path normalised, and leaves no root in front. */
  lemma NormalisedTail(p: Path)
    requires Normalised(p) && |p| >= 2
    ensures Normalised(p[1..]) && p[1..] != [] && p[1..][0] != RootDir
  {
    forall i | 0 <= i < |p| - 1 ensures p[1..][i] == p[i + 1] {
    }
  }

  /** A normalised path other than the empty path and the root renders to a
      non-empty text that does not end in '/'. */
  lemma {:induction false} RenderEndsInName(p: Path)
    requires Normalised(p) && p != [] && p != [RootDir]
    ensures Render(p) != "" && Render(p)[|Render(p)| - 1] != '/'
    decreases |p|
  {
    if |p| >= 2 {
      NormalisedTail(p);
      RenderEndsInName(p[1..]);
    } else {
      assert p[0] != RootDir;
    }
  }

  /** Joining a relative text to a normalised path gives the text of the path with
      that text as one more component. */
  lemma JoinTextRendersJoin(base: Path, rel: string)
    requires Normalised(base) && !Text.StartsWith(rel, "/")
    ensures JoinText(base, rel) == Render(base + [Normal(rel)])
  {
    RenderPush(base, Normal(rel));
    if base != [] && base != [RootDir] {
      RenderEndsInName(base);
    }
  }
  /** A component std yields inside a relative path: a name that is neither empty,
      "." nor ".." and holds no '/', or one of the two dot components. */
  predicate Plain(c: Component)
  {
    || (c.Normal? && c.name != "" && c.name != "." && c.name != ".." && '/' !in c.name)
    || c.CurDir?
    || c.ParentDir?
  }

  /** A relative path made of plain components only. */
  predicate Separated(p: Path)
  {
    forall i :: 0 <= i < |p| ==> Plain(p[i])
  }

  /** Two texts free of '/' joined around a '/' can be split back apart. */
  lemma SplitAtSlash(a: string, b: string, x: string, y: string)
    requires '/' !in a && '/' !in x
    requires a + "/" + b == x + "/" + y
    ensures a == x && b == y
  {
    var s := a + "/" + b;
    assert s[|a|] == '/' && s[|x|] == '/';
    assert forall k :: 0 <= k < |a| ==> s[k] == a[k];
    assert forall k :: 0 <= k < |x| ==> s[k] == x[k];
    assert |a| == |x|;
    assert a == s[..|a|] == x;
    assert b == s[|a| + 1..] == y;
  }

  /** A separated path of one component renders without a '/', a longer one with a
      '/' right after its first component. */
  lemma RenderSlashes(p: Path)
    requires Separated(p) && p != []
    ensures |p| == 1 ==> '/' !in Render(p) && Render(p) != ""
    ensures |p| >= 2 ==> Render(p) == ComponentText(p[0]) + "/" + Render(p[1..])
    ensures |p| >= 2 ==> |ComponentText(p[0])| < |Render(p)| && Render(p)[|ComponentText(p[0])|] == '/'
  {
    assert Plain(p[0]);
  }

  /** Rendering is injective on separated paths: different relative paths of plain
      components never display as the same text. */
  lemma {:induction false} RenderInjective(p: Path, q: Path)
    requires Separated(p) && Separated(q)
    ensures Render(p) == Render(q) <==> p == q
    decreases |p|
  {
    if Render(p) != Render(q) || p == [] || q == [] {
      if p != [] { RenderSlashes(p); }
      if q != [] { RenderSlashes(q); }
      return;
    }
    RenderSlashes(p);
    RenderSlashes(q);
    if |p| == 1 && |q| == 1 {
      assert Plain(p[0]) && Plain(q[0]);
      assert p == [p[0]] && q == [q[0]];
    } else if |p| >= 2 && |q| >= 2 {
      assert Plain(p[0]) && Plain(q[0]);
      SplitAtSlash(ComponentText(p[0]), Render(p[1..]), ComponentText(q[0]), Render(q[1..]));
      assert Separated(p[1..]) && Separated(q[1..]) by {
        forall i | 0 <= i < |p| - 1 ensures p[1..][i] == p[i + 1] { }
        forall i | 0 <= i < |q| - 1 ensures q[1..][i] == q[i + 1] { }
      }
      RenderInjective(p[1..], q[1..]);
      assert p == [p[0]] + p[1..] && q == [q[0]] + q[1..];
    } else {
      assert false;
    }
  }
}
