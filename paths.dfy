/**
 * The slice of Rust's `std::path` that the repository locator and the
 * exclude-file store rely on: a path is the sequence of its components, the
 * filesystem root is the empty sequence, `parent` drops the last component,
 * `join` appends the components of a relative argument, and a path is shown
 * as its components separated by '/'.
 */
module Paths {
  import opened Wrappers
  import opened Strings

  type Path = seq<string>

  const Separator: char := '/'

  /** A component as `Path::components` yields it for the interior of a path. */
  predicate IsNormal(component: string)
  {
    component != "" && component != "." && Separator !in component
  }

  predicate IsNormalPath(p: Path)
  {
    forall component :: component in p ==> IsNormal(component)
  }

  /** `Path::parent`: nothing above the root, otherwise one component less. */
  function Parent(p: Path): (r: Option<Path>)
    ensures r.None? <==> p == []
    ensures r.Some? ==> r.value < p && |r.value| == |p| - 1
  {
    if p == [] then None else Some(p[..|p| - 1])
  }

  /** Drops the empty pieces (repeated or trailing '/') and the "." pieces. */
  function NormalPieces(pieces: seq<string>): (r: Path)
    ensures forall component :: component in r ==> component in pieces
    ensures forall component :: component in r ==> component != "" && component != "."
    ensures (forall piece :: piece in pieces ==> piece != "" && piece != ".") ==> r == pieces
  {
    if pieces == [] then []
    else if pieces[0] == "" || pieces[0] == "." then
      assert pieces[0] in pieces;
      assert forall piece :: piece in pieces[1..] ==> piece in pieces;
      NormalPieces(pieces[1..])
    else
      assert pieces == [pieces[0]] + pieces[1..];
      assert forall piece :: piece in pieces[1..] ==> piece in pieces;
      [pieces[0]] + NormalPieces(pieces[1..])
  }

  /** The components of a path written as a string. */
  function Components(s: string): (p: Path)
    ensures IsNormalPath(p)
  {
    NormalPieces(Split(s, Separator))
  }

  /** Whether `Path::join` treats its argument as absolute. */
  predicate IsAbsolute(s: string)
  {
    |s| > 0 && s[0] == Separator
  }

  /** `base.join(entry)`: an absolute entry replaces the base, a relative one extends it. */
  function Join(base: Path, entry: string): (r: Path)
    ensures IsNormalPath(base) ==> IsNormalPath(r)
    ensures IsAbsolute(entry) ==> IsNormalPath(r)
  {
    if IsAbsolute(entry) then Components(entry) else base + Components(entry)
  }

  /** The '/'-separated text of a path, as `to_string_lossy` shows a relative path. */
  function Render(p: Path): string
  {
    JoinWith(p, Separator)
  }

  /** Rendering a path of normal components and splitting it again is lossless. */
  lemma ComponentsOfRender(p: Path)
    requires IsNormalPath(p)
    ensures Components(Render(p)) == p
  {
    if p == [] {
      assert Split("", Separator) == [""];
    } else {
      SplitJoin(p, Separator);
    }
  }

  /** Joining the rendering of a relative path of normal components appends them. */
  lemma JoinRendered(base: Path, q: Path)
    requires IsNormalPath(q)
    ensures Join(base, Render(q)) == base + q
  {
    ComponentsOfRender(q);
    if q != [] {
      assert q[0] in q;
      var head := q[0];
      if |q| > 1 {
        assert Render(q) == head + ([Separator] + Render(q[1..]));
      }
      assert Render(q)[0] == head[0];
    }
  }

  /** A relative entry always lands at or below the base. */
  lemma JoinRelativeExtends(base: Path, entry: string)
    requires !IsAbsolute(entry)
    ensures base <= Join(base, entry)
  {
  }
}
