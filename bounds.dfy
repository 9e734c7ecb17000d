/**
 * Positions and the spatial bounds filter that restricts which villagers the
 * bot trades with.
 */
module Bounds {
  import opened Wrappers
  import Text

  /** An entity position. Positions are JavaScript numbers; they are modelled as reals. */
  datatype Vec3 = Vec3(x: real, y: real, z: real)

  /** A block position: the integer coordinates that `position.floored()` gives. */
  datatype Pos = Pos(x: int, y: int, z: int)

  /** `v.floored()`: each coordinate rounded down to the block that holds it. */
  function Floored(v: Vec3): (p: Pos)
    ensures p.x as real <= v.x < p.x as real + 1.0
    ensures p.y as real <= v.y < p.y as real + 1.0
    ensures p.z as real <= v.z < p.z as real + 1.0
  {
    Pos(v.x.Floor, v.y.Floor, v.z.Floor)
  }

  /** A block position seen as an entity position (the block's lower corner). */
  function AsVec3(p: Pos): Vec3 {
    Vec3(p.x as real, p.y as real, p.z as real)
  }

  lemma FlooredAsVec3(p: Pos)
    ensures Floored(AsVec3(p)) == p
  {
  }

  function Min(a: int, b: int): int {
    if a <= b then a else b
  }

  function Max(a: int, b: int): int {
    if a <= b then b else a
  }

  /**
   * `withinBounds(pos)`: with both corners set, `pos` must lie between the
   * per-axis minimum and maximum of the two corners, ends included; with either
   * corner unset every position is allowed.
   */
  predicate WithinBounds(bound1: Option<Pos>, bound2: Option<Pos>, pos: Vec3) {
    if bound1.None? || bound2.None? then true
    else
      var b1, b2 := bound1.value, bound2.value;
      && pos.x >= Min(b1.x, b2.x) as real && pos.x <= Max(b1.x, b2.x) as real
      && pos.y >= Min(b1.y, b2.y) as real && pos.y <= Max(b1.y, b2.y) as real
      && pos.z >= Min(b1.z, b2.z) as real && pos.z <= Max(b1.z, b2.z) as real
  }

  /** `t` lies on the closed segment between `a` and `b`, whichever is larger. */
  predicate Between(a: int, b: int, t: real) {
    (a as real <= t <= b as real) || (b as real <= t <= a as real)
  }

  /** An unset corner disables the filter. */
  lemma UnsetAllowsAll(bound1: Option<Pos>, bound2: Option<Pos>, pos: Vec3)
    requires bound1.None? || bound2.None?
    ensures WithinBounds(bound1, bound2, pos)
  {
  }

  /** The two corners play symmetric roles. */
  lemma CornersCommute(bound1: Option<Pos>, bound2: Option<Pos>, pos: Vec3)
    ensures WithinBounds(bound1, bound2, pos) == WithinBounds(bound2, bound1, pos)
  {
  }

  /** With both corners set, the filter is closed-interval containment on every axis. */
  lemma WithinBoundsIsBox(b1: Pos, b2: Pos, pos: Vec3)
    ensures WithinBounds(Some(b1), Some(b2), pos)
        <==> Between(b1.x, b2.x, pos.x) && Between(b1.y, b2.y, pos.y) && Between(b1.z, b2.z, pos.z)
  {
  }

  /** Both corners are themselves inside the box they span. */
  lemma CornersInside(b1: Pos, b2: Pos)
    ensures WithinBounds(Some(b1), Some(b2), AsVec3(b1))
    ensures WithinBounds(Some(b1), Some(b2), AsVec3(b2))
  {
  }

  /** `${p}` for a block position: vec3's `(x, y, z)` rendering. */
  function PosText(p: Pos): (s: string)
    ensures |s| >= 9 && s[0] == '(' && s[|s| - 1] == ')'
  {
    "(" + Text.IntToString(p.x) + ", " + Text.IntToString(p.y) + ", " + Text.IntToString(p.z) + ")"
  }

  /** The index of the first `c` in `s`, or `|s|` when there is none. */
  function IndexOf(s: string, c: char): (i: nat)
    ensures i <= |s| && (i < |s| ==> s[i] == c)
    ensures forall k :: 0 <= k < i ==> s[k] != c
    decreases |s|
  {
    if |s| == 0 || s[0] == c then 0 else 1 + IndexOf(s[1..], c)
  }

  /** `s` cut at its first comma, when a space follows it: the text before and after `", "`. */
  function CutComma(s: string): Option<(string, string)> {
    var i := IndexOf(s, ',');
    if i + 2 <= |s| && s[i + 1] == ' ' then Some((s[..i], s[i + 2..])) else None
  }

  /** Reads a position back from its `(x, y, z)` rendering; `None` for any other text. */
  function ParsePos(s: string): Option<Pos> {
    if |s| < 2 || s[0] != '(' || s[|s| - 1] != ')' then None else ParseCoordinates(s[1..|s| - 1])
  }

  /** Reads `x, y, z` back as a position. */
  function ParseCoordinates(inner: string): Option<Pos> {
    match CutComma(inner)
    case None => None
    case Some((xs, rest)) =>
      match CutComma(rest)
      case None => None
      case Some((ys, zs)) =>
        if Text.IsIntText(xs) && Text.IsIntText(ys) && Text.IsIntText(zs) then
          Some(Pos(Text.ParseInt(xs), Text.ParseInt(ys), Text.ParseInt(zs)))
        else None
  }

  /** A rendered coordinate is digits and perhaps a minus sign, never a comma, and reads back as itself. */
  lemma CoordinateText(n: int)
    ensures Text.IsIntText(Text.IntToString(n)) && Text.ParseInt(Text.IntToString(n)) == n
    ensures ',' !in Text.IntToString(n)
  {
    Text.ParseIntToString(n);
  }

  /** Cutting `a + ", " + b` at its first comma recovers `a` and `b` when `a` has no comma. */
  lemma CutAtComma(a: string, b: string)
    requires ',' !in a
    ensures CutComma(a + ", " + b) == Some((a, b))
  {
    var s := a + ", " + b;
    assert s[|a|] == ',' && s[|a| + 1] == ' ';
    assert forall k :: 0 <= k < |a| ==> s[k] == a[k];
    assert IndexOf(s, ',') == |a|;
    assert s[..|a|] == a && s[|a| + 2..] == b;
  }

  /** Three comma-free coordinate texts in the `(x, y, z)` frame read back as those coordinates. */
  lemma ParsePosParts(xs: string, ys: string, zs: string)
    requires ',' !in xs && ',' !in ys
    requires Text.IsIntText(xs) && Text.IsIntText(ys) && Text.IsIntText(zs)
    ensures ParsePos("(" + xs + ", " + ys + ", " + zs + ")")
         == Some(Pos(Text.ParseInt(xs), Text.ParseInt(ys), Text.ParseInt(zs)))
  {
    var s := "(" + xs + ", " + ys + ", " + zs + ")";
    var rest := ys + ", " + zs;
    var inner := xs + ", " + rest;
    assert s == "(" + inner + ")" && s[1..|s| - 1] == inner;
    assert ParseCoordinates(inner) == Some(Pos(Text.ParseInt(xs), Text.ParseInt(ys), Text.ParseInt(zs))) by {
      CutAtComma(xs, rest);
      CutAtComma(ys, zs);
    }
  }

  /** The rendering of a block position reads back as that position. */
  lemma ParsePosText(p: Pos)
    ensures ParsePos(PosText(p)) == Some(p)
  {
    CoordinateText(p.x);
    CoordinateText(p.y);
    CoordinateText(p.z);
    ParsePosParts(Text.IntToString(p.x), Text.IntToString(p.y), Text.IntToString(p.z));
  }

  /** Different block positions are reported differently. */
  lemma PosTextInjective(p: Pos, q: Pos)
    requires PosText(p) == PosText(q)
    ensures p == q
  {
    ParsePosText(p);
    ParsePosText(q);
  }
}
