/**
 * Records of mapa/models.py that the overlay engine touches, and the
 * even-odd ray-casting test `ponto_em_poligono`.
 *
 * Coordinates are pixels of the map image, taken over the reals.
 */
module Models {
  import opened Outcomes

  /** The `1e-12` added to an edge's vertical span before dividing by it. */
  const Nudge: real := 0.000000000001

  /** A stored polygon entry: an `[x, y]` pair, or anything that does not unpack into two values. */
  datatype Vertex = Pair(x: real, y: real) | Malformed

  type Polygon = seq<Vertex>

  /** A biome: its key, its optional map, and its polygon list (None is a JSON null). */
  datatype Bioma = Bioma(id: int, mapa: Option<int>, poligonos: Option<seq<Polygon>>)

  /** A character and the settlement it originates from. */
  datatype Personagem = Personagem(id: int, origem: int)

  /**
   * A settlement instance as held by a request: its map, its optional position
   * and its many-to-many association with biomes, which is updated in place.
   */
  class Assentamento {
    const id: int
    var mapa: Option<int>
    var posX: Option<real>
    var posY: Option<real>
    var bioma: set<int>

    /** A freshly saved settlement: the creation serializer never writes `bioma`. */
    constructor (id: int, mapa: Option<int>, posX: Option<real>, posY: Option<real>)
      ensures this.id == id && this.mapa == mapa && this.posX == posX && this.posY == posY
      ensures bioma == {}
    {
      this.id := id;
      this.mapa := mapa;
      this.posX := posX;
      this.posY := posY;
      bioma := {};
    }

    /**
     * `bioma.set(ids)`: the association becomes exactly the listed ids; when one of
     * them names no stored biome the store refuses and nothing changes.
     */
    method SetBioma(ids: seq<int>, stored: set<int>) returns (ok: bool)
      modifies this`bioma
      ensures ok <==> forall i :: i in ids ==> i in stored
      ensures bioma == if ok then (set i | i in ids) else old(bioma)
    {
      ok := forall i | i in ids :: i in stored;
      if ok {
        bioma := set i | i in ids;
      }
    }
  }

  /** The index visited just before `i` in a walk of `n` vertices that wraps around. */
  function Prev(i: nat, n: nat): (j: nat)
    requires i < n
    ensures j < n
  {
    if i == 0 then n - 1 else i - 1
  }

  /** The edge from `a` to `b` has one end strictly above the ray's line and the other at or below it. */
  predicate Straddles(y: real, a: Vertex, b: Vertex)
    requires a.Pair? && b.Pair?
  {
    (a.y > y) != (b.y > y)
  }

  /** The divisor of the intercept formula for the edge (a, b). */
  function Span(a: Vertex, b: Vertex): real
    requires a.Pair? && b.Pair?
  {
    b.y - a.y + Nudge
  }

  /** Where the edge (a, b) meets the horizontal line through y, with the nudged divisor. */
  function Intercept(a: Vertex, b: Vertex, y: real): real
    requires a.Pair? && b.Pair? && Span(a, b) != 0.0
  {
    (b.x - a.x) * (y - a.y) / Span(a, b) + a.x
  }

  /**
   * One loop iteration: unpack vertex i, unpack its predecessor, then decide
   * whether the edge between them flips the parity.
   */
  function EdgeStep(x: real, y: real, p: Polygon, i: nat): Result<bool>
    requires i < |p|
  {
    var vi, vj := p[i], p[Prev(i, |p|)];
    if vi.Malformed? || vj.Malformed? then Err(Unpack)
    else if !Straddles(y, vi, vj) then Ok(false)
    else if Span(vi, vj) == 0.0 then Err(ZeroDivision)
    else Ok(x < Intercept(vi, vj, y))
  }

  /** The state after the first `k` iterations: the parity so far, or the exception that ended the loop. */
  function Scan(x: real, y: real, p: Polygon, k: nat): Result<bool>
    requires k <= |p|
  {
    if k == 0 then Ok(false)
    else match Scan(x, y, p, k - 1)
      case Err(f) => Err(f)
      case Ok(inside) =>
        match EdgeStep(x, y, p, k - 1)
        case Err(f) => Err(f)
        case Ok(flip) => Ok(inside != flip)
  }

  /** What `ponto_em_poligono(x, y, p)` returns or raises. */
  function Inside(x: real, y: real, p: Polygon): Result<bool>
  {
    if |p| < 3 then Ok(false) else Scan(x, y, p, |p|)
  }

  /** The ray-casting loop itself. */
  method PontoEmPoligono(x: real, y: real, poligono: Polygon) returns (r: Result<bool>)
    ensures |poligono| < 3 ==> r == Ok(false)
    ensures r == Inside(x, y, poligono)
  {
    var inside := false;
    var n := |poligono|;
    if n < 3 {
      return Ok(false);
    }
    var j := n - 1;
    for i := 0 to n
      invariant j == if i == 0 then n - 1 else i - 1
      invariant Scan(x, y, poligono, i) == Ok(inside)
    {
      assert j == Prev(i, n);
      // unpacking `poligono[i]`, then `poligono[j]`, into (x, y)
      if poligono[i].Malformed? || poligono[j].Malformed? {
        ScanErrPersists(x, y, poligono, i + 1, n);
        return Err(Unpack);
      }
      var yi, yj := poligono[i].y, poligono[j].y;
      var intersect := false;
      if (yi > y) != (yj > y) {
        if yj - yi + Nudge == 0.0 {
          ScanErrPersists(x, y, poligono, i + 1, n);
          return Err(ZeroDivision);
        }
        intersect := x < Intercept(poligono[i], poligono[j], y);
      }
      if intersect {
        inside := !inside;
      }
      j := i;
    }
    return Ok(inside);
  }

  // ---------------------------------------------------------------------
  // An independent description of the result: the parity of the set of
  // crossing edges, and the conditions under which the call raises.
  // ---------------------------------------------------------------------

  /** Edge (i, i-1 mod n) is crossed by the ray going right from (x, y). */
  predicate Crosses(x: real, y: real, p: Polygon, i: nat)
  {
    i < |p| &&
    var a, b := p[i], p[Prev(i, |p|)];
    a.Pair? && b.Pair? && Straddles(y, a, b) && Span(a, b) != 0.0 && x < Intercept(a, b, y)
  }

  /** The indices below `k` at which `holds` is true. */
  function IndicesBelow(k: nat, holds: nat -> bool): set<nat>
  {
    set i: nat | i < k && holds(i)
  }

  /** The crossing edges among the first `k`. */
  function Crossings(x: real, y: real, p: Polygon, k: nat): set<nat>
  {
    IndicesBelow(k, (i: nat) => Crosses(x, y, p, i))
  }

  /** Every entry of the polygon is an [x, y] pair. */
  predicate WellFormed(p: Polygon)
  {
    forall i | 0 <= i < |p| :: p[i].Pair?
  }

  /** Edge i straddles the ray but its nudged span is exactly zero. */
  predicate ZeroSpan(y: real, p: Polygon, i: nat)
  {
    i < |p| &&
    var a, b := p[i], p[Prev(i, |p|)];
    a.Pair? && b.Pair? && Straddles(y, a, b) && Span(a, b) == 0.0
  }

  /** Nothing in the polygon makes the loop raise for a ray at height y. */
  predicate Evaluable(y: real, p: Polygon)
  {
    WellFormed(p) && forall i: nat | i < |p| :: !ZeroSpan(y, p, i)
  }

  /** Once an iteration has raised, later iterations never run: the outcome is that exception. */
  lemma {:induction false} ScanErrPersists(x: real, y: real, p: Polygon, k: nat, m: nat)
    requires k <= m <= |p|
    requires Scan(x, y, p, k).Err?
    ensures Scan(x, y, p, m) == Scan(x, y, p, k)
  {
    if m > k {
      ScanErrPersists(x, y, p, k, m - 1);
    }
  }

  /** On an evaluable polygon each iteration flips exactly when its edge is crossed. */
  lemma EdgeStepEvaluable(x: real, y: real, p: Polygon, i: nat)
    requires i < |p| && Evaluable(y, p)
    ensures EdgeStep(x, y, p, i) == Ok(Crosses(x, y, p, i))
  {
    assert p[i].Pair? && p[Prev(i, |p|)].Pair?;
    assert !ZeroSpan(y, p, i);
  }

  /** Raising the bound by one adds the new index exactly when it qualifies. */
  lemma IndicesBelowStep(k: nat, holds: nat -> bool)
    ensures |IndicesBelow(k + 1, holds)| == |IndicesBelow(k, holds)| + (if holds(k) then 1 else 0)
  {
    if holds(k) {
      assert IndicesBelow(k + 1, holds) == IndicesBelow(k, holds) + {k};
    } else {
      assert IndicesBelow(k + 1, holds) == IndicesBelow(k, holds);
    }
  }

  /** Edge k joins the crossings of the first k + 1 edges exactly when it is crossed. */
  lemma CrossingsStep(x: real, y: real, p: Polygon, k: nat)
    ensures |Crossings(x, y, p, k + 1)| == |Crossings(x, y, p, k)| + (if Crosses(x, y, p, k) then 1 else 0)
  {
    IndicesBelowStep(k, (i: nat) => Crosses(x, y, p, i));
  }

  /** After k iterations the accumulator is the parity of the crossings among the first k edges. */
  lemma {:induction false} ScanIsCrossingParity(x: real, y: real, p: Polygon, k: nat)
    requires k <= |p| && Evaluable(y, p)
    ensures Scan(x, y, p, k) == Ok(|Crossings(x, y, p, k)| % 2 == 1)
  {
    if k > 0 {
      ScanIsCrossingParity(x, y, p, k - 1);
      EdgeStepEvaluable(x, y, p, k - 1);
      CrossingsStep(x, y, p, k - 1);
      var c := |Crossings(x, y, p, k - 1)|;
      assert ((c + 1) % 2 == 1) == !(c % 2 == 1);
    }
  }

  /** Even-odd rule: a polygon of three or more vertices contains the point iff an odd number of its n edges is crossed. */
  lemma InsideIsCrossingParity(x: real, y: real, p: Polygon)
    requires |p| >= 3 && Evaluable(y, p)
    ensures Inside(x, y, p) == Ok(|Crossings(x, y, p, |p|)| % 2 == 1)
  {
    ScanIsCrossingParity(x, y, p, |p|);
  }

  /**
   * The first k iterations raise iff one of them raises, and the exception is
   * that of the first iteration that raises: every earlier one completed.
   */
  lemma {:induction false} ScanFailsAt(x: real, y: real, p: Polygon, k: nat)
    requires k <= |p|
    ensures Scan(x, y, p, k).Err? ==>
      exists i: nat :: i < k && EdgeStep(x, y, p, i) == Err(Scan(x, y, p, k).fault) &&
        forall l: nat | l < i :: EdgeStep(x, y, p, l).Ok?
    ensures (exists i: nat :: i < k && EdgeStep(x, y, p, i).Err?) ==> Scan(x, y, p, k).Err?
  {
    if k > 0 {
      ScanFailsAt(x, y, p, k - 1);
      if exists i: nat :: i < k && EdgeStep(x, y, p, i).Err? {
        var i: nat :| i < k && EdgeStep(x, y, p, i).Err?;
        if i < k - 1 {
          assert Scan(x, y, p, k - 1).Err?;
        }
      }
      if Scan(x, y, p, k).Err? && Scan(x, y, p, k - 1).Ok? {
        assert forall l: nat | l < k - 1 :: EdgeStep(x, y, p, l).Ok?;
        assert EdgeStep(x, y, p, k - 1) == Err(Scan(x, y, p, k).fault);
      }
    }
  }

  /**
   * A polygon of three or more vertices raises exactly when it is not evaluable:
   * a malformed entry always makes the call fail, and with only well-formed
   * entries the one possible exception is the division by a zero span.
   */
  lemma InsideFails(x: real, y: real, p: Polygon)
    requires |p| >= 3
    ensures Inside(x, y, p).Err? <==> !Evaluable(y, p)
    ensures !WellFormed(p) ==> Inside(x, y, p).Err?
    ensures WellFormed(p) && Inside(x, y, p).Err? ==> Inside(x, y, p).fault == ZeroDivision
  {
    ScanFailsAt(x, y, p, |p|);
    if Evaluable(y, p) {
      ScanIsCrossingParity(x, y, p, |p|);
    } else if !WellFormed(p) {
      var i :| 0 <= i < |p| && !p[i].Pair?;
      assert EdgeStep(x, y, p, i).Err?;
    } else {
      var i: nat :| i < |p| && ZeroSpan(y, p, i);
      assert EdgeStep(x, y, p, i).Err?;
    }
    if WellFormed(p) && Inside(x, y, p).Err? {
      var i: nat :| i < |p| && EdgeStep(x, y, p, i) == Err(Inside(x, y, p).fault);
      assert p[i].Pair? && p[Prev(i, |p|)].Pair?;
    }
  }

  /** An edge whose ends lie on the same side of the ray never flips the result; horizontal edges are such edges. */
  lemma NonStraddlingEdgeNeverFlips(x: real, y: real, p: Polygon, i: nat)
    requires i < |p| && p[i].Pair? && p[Prev(i, |p|)].Pair?
    requires (p[i].y > y) == (p[Prev(i, |p|)].y > y)
    ensures EdgeStep(x, y, p, i) == Ok(false)
    ensures !Crosses(x, y, p, i)
  {
  }

  /** With every vertex a pair on the same side of the ray, no iteration flips, so every prefix gives False. */
  lemma {:induction false} ScanWithoutStraddles(x: real, y: real, p: Polygon, k: nat, above: bool)
    requires k <= |p|
    requires forall i | 0 <= i < |p| :: p[i].Pair? && (p[i].y > y) == above
    ensures Scan(x, y, p, k) == Ok(false)
  {
    if k > 0 {
      ScanWithoutStraddles(x, y, p, k - 1, above);
      assert p[k - 1].Pair? && p[Prev(k - 1, |p|)].Pair?;
    }
  }

  /** A ray at or below every vertex's y, or strictly above all of them, is never inside. */
  lemma RayOutsideVerticalRange(x: real, y: real, p: Polygon)
    requires (forall i | 0 <= i < |p| :: p[i].Pair? && p[i].y <= y)
          || (forall i | 0 <= i < |p| :: p[i].Pair? && p[i].y > y)
    ensures Inside(x, y, p) == Ok(false)
  {
    if |p| >= 3 {
      ScanWithoutStraddles(x, y, p, |p|, p[0].y > y);
    }
  }

  /** The square with corners (0,0) and (10,10). */
  const Square: Polygon := [Pair(0.0, 0.0), Pair(10.0, 0.0), Pair(10.0, 10.0), Pair(0.0, 10.0)]

  /** The centre of the square is inside; a point to its right at the same height is not. */
  lemma SquareScenario()
    ensures Inside(5.0, 5.0, Square) == Ok(true)
    ensures Inside(15.0, 5.0, Square) == Ok(false)
  {
    var p := Square;
    assert EdgeStep(5.0, 5.0, p, 0) == Ok(false);
    assert EdgeStep(5.0, 5.0, p, 1) == Ok(false);
    assert EdgeStep(5.0, 5.0, p, 2) == Ok(true);
    assert EdgeStep(5.0, 5.0, p, 3) == Ok(false);
    assert Scan(5.0, 5.0, p, 1) == Ok(false);
    assert Scan(5.0, 5.0, p, 2) == Ok(false);
    assert Scan(5.0, 5.0, p, 3) == Ok(true);
    assert Scan(5.0, 5.0, p, 4) == Ok(true);
    assert EdgeStep(15.0, 5.0, p, 0) == Ok(false);
    assert EdgeStep(15.0, 5.0, p, 1) == Ok(false);
    assert EdgeStep(15.0, 5.0, p, 2) == Ok(false);
    assert EdgeStep(15.0, 5.0, p, 3) == Ok(false);
    assert Scan(15.0, 5.0, p, 1) == Ok(false);
    assert Scan(15.0, 5.0, p, 2) == Ok(false);
    assert Scan(15.0, 5.0, p, 3) == Ok(false);
    assert Scan(15.0, 5.0, p, 4) == Ok(false);
  }

  /**
   * The nudge does not remove every zero divisor: an edge that straddles the ray
   * with a vertical span of exactly 1e-12 divides by zero.
   */
  lemma ZeroSpanScenario()
    ensures Inside(0.0, 0.0, [Pair(1.0, Nudge), Pair(2.0, 5.0), Pair(3.0, 0.0)]) == Err(ZeroDivision)
  {
    var p := [Pair(1.0, Nudge), Pair(2.0, 5.0), Pair(3.0, 0.0)];
    assert EdgeStep(0.0, 0.0, p, 0) == Err(ZeroDivision);
    ScanErrPersists(0.0, 0.0, p, 1, 3);
  }
}
