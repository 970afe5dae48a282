/**
 * The settlement endpoints of mapa/views.py: biome auto-assignment when a
 * settlement is created (`perform_create`) and the marker listing (`markers`).
 */
module Views {
  import opened Outcomes
  import opened Models
  import opened Filtering

  // ---------------------------------------------------------------------
  // perform_create: the `_bioma_ids` override
  // ---------------------------------------------------------------------

  /** One entry of `_bioma_ids`, as `int(entry)` sees it: converted, or raising. */
  datatype RawId = AsInt(n: int) | NotInt

  /** The `_bioma_ids` request field: absent or falsy, some non-list value, or a list. */
  datatype ManualIds = Absent | NotList | IdList(items: seq<RawId>)

  /** `[int(i) for i in items]`: all entries converted in order, or None when one of them raises. */
  function ConvertIds(items: seq<RawId>): (r: Option<seq<int>>)
    ensures r.None? <==> exists k :: 0 <= k < |items| && items[k].NotInt?
    ensures r.Some? ==> |r.value| == |items| && forall k :: 0 <= k < |items| ==> items[k] == AsInt(r.value[k])
  {
    if items == [] then Some([])
    else match items[0]
      case NotInt => None
      case AsInt(n) =>
        match ConvertIds(items[1..])
        case None => None
        case Some(rest) => Some([n] + rest)
  }

  /** The keys of the stored biomes: the ids `bioma.set` accepts. */
  function StoredIds(biomas: seq<Bioma>): set<int>
  {
    set b | b in biomas :: b.id
  }

  /** The override is applied: a non-empty list whose entries all convert and all name stored biomes. */
  predicate OverrideApplies(manual: ManualIds, stored: set<int>)
  {
    manual.IdList? && |manual.items| > 0 && ConvertIds(manual.items).Some? &&
    forall i :: i in ConvertIds(manual.items).value ==> i in stored
  }

  /** The association after the override step: the converted ids when it applies, the old one otherwise. */
  function Override(current: set<int>, manual: ManualIds, stored: set<int>): set<int>
  {
    if OverrideApplies(manual, stored) then set i | i in ConvertIds(manual.items).value
    else current
  }

  // ---------------------------------------------------------------------
  // perform_create: geometric auto-assignment
  // ---------------------------------------------------------------------

  /** `instance.mapa_id and pos_x is not None and pos_y is not None` (a map id of 0 is falsy). */
  predicate Locatable(mapa: Option<int>, posX: Option<real>, posY: Option<real>)
  {
    mapa.Some? && mapa.value != 0 && posX.Some? && posY.Some?
  }

  /** The condition `mapa_id=m` on a biome. */
  function OnMap(m: int): Bioma -> bool
  {
    (b: Bioma) => b.mapa == Some(m)
  }

  /** `Bioma.objects.filter(mapa_id=m)`: the stored biomes of map m, in queryset order. */
  function Candidates(biomas: seq<Bioma>, m: int): (c: seq<Bioma>)
    ensures |c| <= |biomas|
    ensures forall b :: b in c <==> b in biomas && b.mapa == Some(m)
  {
    KeepMembers(biomas, OnMap(m));
    Keep(biomas, OnMap(m))
  }

  /** `b.poligonos or []`: a null polygon list contributes nothing. */
  function PolygonsOf(b: Bioma): seq<Polygon>
  {
    match b.poligonos
    case None => []
    case Some(ps) => ps
  }

  /** What `ponto_em_poligono` returns or raises on each polygon of a biome, in order. */
  function PolygonOutcomes(x: real, y: real, polys: seq<Polygon>): seq<Result<bool>>
  {
    seq(|polys|, k requires 0 <= k < |polys| => Inside(x, y, polys[k]))
  }

  /**
   * The polygon loop of one biome, given each polygon's outcome: it stops at the
   * first polygon that contains the point and propagates the first exception.
   */
  function FirstMatch(outs: seq<Result<bool>>): Result<bool>
  {
    if outs == [] then Ok(false)
    else match outs[0]
      case Err(f) => Err(f)
      case Ok(hit) => if hit then Ok(true) else FirstMatch(outs[1..])
  }

  /** Whether the point lies in the biome with polygon list `polys`, or the exception its loop raises. */
  function PolygonsMatch(x: real, y: real, polys: seq<Polygon>): Result<bool>
  {
    FirstMatch(PolygonOutcomes(x, y, polys))
  }

  /** Every outcome before index k is a miss. */
  predicate MissesBefore(outs: seq<Result<bool>>, k: nat)
    requires k <= |outs|
  {
    forall l | 0 <= l < k :: outs[l] == Ok(false)
  }

  /** The ids of the candidates whose polygon loop finds the point, in candidate order. */
  function MatchedIds(x: real, y: real, cands: seq<Bioma>): seq<int>
  {
    if cands == [] then []
    else
      var last := cands[|cands| - 1];
      MatchedIds(x, y, cands[..|cands| - 1]) +
        (if PolygonsMatch(x, y, PolygonsOf(last)) == Ok(true) then [last.id] else [])
  }

  /** The polygon loop of the biome finds the point without raising. */
  function Finds(x: real, y: real): Bioma -> bool
  {
    (b: Bioma) => PolygonsMatch(x, y, PolygonsOf(b)) == Ok(true)
  }

  /** The biome is on map m and its polygon loop finds the point without raising. */
  function FindsOnMap(x: real, y: real, m: int): Bioma -> bool
  {
    (b: Bioma) => b.mapa == Some(m) && PolygonsMatch(x, y, PolygonsOf(b)) == Ok(true)
  }

  /** The ids of a list of biomes, in order. */
  function IdsOf(bs: seq<Bioma>): seq<int>
  {
    seq(|bs|, j requires 0 <= j < |bs| => bs[j].id)
  }

  /** The association `perform_create` leaves on a settlement that had `current`. */
  function Assign(current: set<int>, mapa: Option<int>, posX: Option<real>, posY: Option<real>,
                  manual: ManualIds, biomas: seq<Bioma>): set<int>
  {
    var afterOverride := Override(current, manual, StoredIds(biomas));
    if afterOverride != {} || !Locatable(mapa, posX, posY) then afterOverride
    else
      var ids := MatchedIds(posX.value, posY.value, Candidates(biomas, mapa.value));
      if ids == [] then afterOverride else set i | i in ids
  }

  /** The `try: for poli in ...: ... break` block for one biome. */
  method ScanBiome(x: real, y: real, polys: seq<Polygon>) returns (r: Result<bool>)
    ensures r == PolygonsMatch(x, y, polys)
  {
    ghost var outs := PolygonOutcomes(x, y, polys);
    for k := 0 to |polys|
      invariant FirstMatch(outs) == FirstMatch(outs[k..])
    {
      assert outs[k..][0] == outs[k] == Inside(x, y, polys[k]);
      assert outs[k..][1..] == outs[k + 1..];
      var hit := PontoEmPoligono(x, y, polys[k]);
      if hit.Err? {
        return Err(hit.fault);
      }
      if hit.value {
        return Ok(true);
      }
    }
    return Ok(false);
  }

  /** The `for b in candidatos` loop: the ids of the candidates whose polygon loop finds the point. */
  method MatchCandidates(x: real, y: real, candidatos: seq<Bioma>) returns (ids: seq<int>)
    ensures ids == MatchedIds(x, y, candidatos)
  {
    ids := [];
    for k := 0 to |candidatos|
      invariant ids == MatchedIds(x, y, candidatos[..k])
    {
      assert candidatos[..k + 1][..k] == candidatos[..k];
      var hit := ScanBiome(x, y, PolygonsOf(candidatos[k]));
      if hit == Ok(true) {
        ids := ids + [candidatos[k].id];
      }
      // a biome whose polygon loop raised is skipped
    }
    assert candidatos[..|candidatos|] == candidatos;
  }

  /**
   * `AssentamentoViewSet.perform_create` after `serializer.save()`: `biomas` is
   * the store's biome table, `manual` the request's `_bioma_ids` field.
   */
  method PerformCreate(instance: Assentamento, manual: ManualIds, biomas: seq<Bioma>)
    modifies instance`bioma
    ensures instance.bioma == Assign(old(instance.bioma), instance.mapa, instance.posX, instance.posY, manual, biomas)
  {
    var stored := StoredIds(biomas);
    if manual.IdList? && |manual.items| > 0 {
      var converted := ConvertIds(manual.items);
      if converted.Some? {
        var applied := instance.SetBioma(converted.value, stored);
      }
    }
    assert instance.bioma == Override(old(instance.bioma), manual, stored);
    if instance.bioma != {} {
      return;
    }
    if Locatable(instance.mapa, instance.posX, instance.posY) {
      var x, y := instance.posX.value, instance.posY.value;
      var candidatos := Candidates(biomas, instance.mapa.value);
      var ids := MatchCandidates(x, y, candidatos);
      if ids != [] {
        MatchedIdsAreCandidates(x, y, candidatos);
        assert forall i :: i in ids ==> i in stored;
        var written := instance.SetBioma(ids, stored);
        assert written;
      }
    }
  }

  // ---------------------------------------------------------------------
  // Properties of the polygon loop and of the candidate scan
  // ---------------------------------------------------------------------

  /**
   * First match wins within a biome: the loop finds the point iff some polygon
   * contains it and every earlier one misses without raising; it raises iff some
   * polygon raises before any earlier one matched; otherwise every polygon misses.
   */
  lemma {:induction false} FirstMatchFirstHit(outs: seq<Result<bool>>)
    ensures FirstMatch(outs) == Ok(true) <==>
      exists k :: 0 <= k < |outs| && outs[k] == Ok(true) && MissesBefore(outs, k)
    ensures FirstMatch(outs).Err? <==>
      exists k :: 0 <= k < |outs| && outs[k].Err? && MissesBefore(outs, k)
    ensures FirstMatch(outs) == Ok(false) <==> MissesBefore(outs, |outs|)
  {
    if outs != [] {
      var tail := outs[1..];
      FirstMatchFirstHit(tail);
      assert forall l | 0 <= l < |tail| :: tail[l] == outs[l + 1];
      forall k | 0 <= k <= |tail|
        ensures MissesBefore(outs, k + 1) <==> outs[0] == Ok(false) && MissesBefore(tail, k)
      {
      }
      if outs[0] == Ok(false) {
        if exists k :: 0 <= k < |tail| && tail[k] == Ok(true) && MissesBefore(tail, k) {
          var k :| 0 <= k < |tail| && tail[k] == Ok(true) && MissesBefore(tail, k);
          assert outs[k + 1] == Ok(true) && MissesBefore(outs, k + 1);
        }
        if exists k :: 0 <= k < |outs| && outs[k] == Ok(true) && MissesBefore(outs, k) {
          var k :| 0 <= k < |outs| && outs[k] == Ok(true) && MissesBefore(outs, k);
          assert tail[k - 1] == Ok(true) && MissesBefore(tail, k - 1);
        }
        if exists k :: 0 <= k < |tail| && tail[k].Err? && MissesBefore(tail, k) {
          var k :| 0 <= k < |tail| && tail[k].Err? && MissesBefore(tail, k);
          assert outs[k + 1].Err? && MissesBefore(outs, k + 1);
        }
        if exists k :: 0 <= k < |outs| && outs[k].Err? && MissesBefore(outs, k) {
          var k :| 0 <= k < |outs| && outs[k].Err? && MissesBefore(outs, k);
          assert tail[k - 1].Err? && MissesBefore(tail, k - 1);
        }
      } else {
        assert MissesBefore(outs, 0);
        forall k | 0 < k <= |outs| ensures !MissesBefore(outs, k) {
          assert outs[0] != Ok(false);
        }
      }
    }
  }

  /** Union law: when no polygon raises, a biome matches iff one of its polygons contains the point. */
  lemma FirstMatchUnion(outs: seq<Result<bool>>)
    requires forall k | 0 <= k < |outs| :: outs[k].Ok?
    ensures FirstMatch(outs) == Ok(exists k :: 0 <= k < |outs| && outs[k] == Ok(true))
  {
    FirstMatchFirstHit(outs);
    if exists k :: 0 <= k < |outs| && outs[k] == Ok(true) {
      var k :| 0 <= k < |outs| && outs[k] == Ok(true);
      assert !MissesBefore(outs, |outs|);
    } else {
      assert MissesBefore(outs, |outs|);
    }
  }

  /** A candidate's id is recorded iff its polygon loop finds the point; candidates that raise are skipped. */
  lemma {:induction false} MatchedIdsMembership(x: real, y: real, cands: seq<Bioma>, id: int)
    ensures id in MatchedIds(x, y, cands) <==>
      exists b :: b in cands && b.id == id && PolygonsMatch(x, y, PolygonsOf(b)) == Ok(true)
  {
    if cands != [] {
      var init := cands[..|cands| - 1];
      MatchedIdsMembership(x, y, init, id);
      assert cands == init + [cands[|cands| - 1]];
      if exists b :: b in cands && b.id == id && PolygonsMatch(x, y, PolygonsOf(b)) == Ok(true) {
        var b :| b in cands && b.id == id && PolygonsMatch(x, y, PolygonsOf(b)) == Ok(true);
        if b != cands[|cands| - 1] {
          assert b in init;
        }
      }
    }
  }

  /** Every recorded id belongs to a candidate. */
  lemma MatchedIdsAreCandidates(x: real, y: real, cands: seq<Bioma>)
    ensures forall i :: i in MatchedIds(x, y, cands) ==> i in StoredIds(cands)
  {
    forall i | i in MatchedIds(x, y, cands) ensures i in StoredIds(cands) {
      MatchedIdsMembership(x, y, cands, i);
    }
  }

  /** With distinct candidate keys the recorded list has no duplicates. */
  lemma {:induction false} MatchedIdsDistinct(x: real, y: real, cands: seq<Bioma>)
    requires forall i, j | 0 <= i < j < |cands| :: cands[i].id != cands[j].id
    ensures var ids := MatchedIds(x, y, cands);
      forall i, j | 0 <= i < j < |ids| :: ids[i] != ids[j]
  {
    if cands != [] {
      var init := cands[..|cands| - 1];
      var last := cands[|cands| - 1];
      MatchedIdsDistinct(x, y, init);
      MatchedIdsMembership(x, y, init, last.id);
      var ids := MatchedIds(x, y, cands);
      var pre := MatchedIds(x, y, init);
      if PolygonsMatch(x, y, PolygonsOf(last)) == Ok(true) {
        assert ids == pre + [last.id];
        assert last.id !in pre;
        forall i, j | 0 <= i < j < |ids| ensures ids[i] != ids[j] {
          if j == |pre| {
            assert ids[i] == pre[i];
          }
        }
      }
    }
  }

  /**
   * The candidate filter keeps queryset order and lists each biome once: the kept
   * positions increase, are exactly those of the biomes of map m, and the j-th
   * candidate is the biome at the j-th kept position.
   */
  lemma CandidatesInTableOrder(biomas: seq<Bioma>, m: int)
    ensures var c, pos := Candidates(biomas, m), KeptPositions(biomas, OnMap(m));
      && StrictlyIncreasing(pos)
      && (forall k: nat :: k in pos <==> k < |biomas| && biomas[k].mapa == Some(m))
      && |c| == |pos|
      && forall j | 0 <= j < |c| :: pos[j] < |biomas| && c[j] == biomas[pos[j]]
  {
    KeptPositionsIncreasing(biomas, OnMap(m));
    KeptPositionsExactly(biomas, OnMap(m));
    KeptPositionsPick(biomas, OnMap(m));
  }

  /** With distinct keys in the table, the candidates have distinct keys. */
  lemma CandidatesDistinct(biomas: seq<Bioma>, m: int)
    requires forall i, j | 0 <= i < j < |biomas| :: biomas[i].id != biomas[j].id
    ensures var c := Candidates(biomas, m);
      forall i, j | 0 <= i < j < |c| :: c[i].id != c[j].id
  {
    CandidatesInTableOrder(biomas, m);
    var c, pos := Candidates(biomas, m), KeptPositions(biomas, OnMap(m));
    forall i, j | 0 <= i < j < |c| ensures c[i].id != c[j].id {
      assert c[i] == biomas[pos[i]] && c[j] == biomas[pos[j]] && pos[i] < pos[j];
    }
  }

  /** The recorded ids are the ids of the candidates whose polygon loop finds the point, in candidate order. */
  lemma {:induction false} MatchedIdsAreKeptIds(x: real, y: real, cands: seq<Bioma>)
    ensures MatchedIds(x, y, cands) == IdsOf(Keep(cands, Finds(x, y)))
  {
    if cands != [] {
      var n := |cands| - 1;
      MatchedIdsAreKeptIds(x, y, cands[..n]);
      var kept := Keep(cands[..n], Finds(x, y));
      if Finds(x, y)(cands[n]) {
        assert IdsOf(kept + [cands[n]]) == IdsOf(kept) + [cands[n].id];
      }
    }
  }

  /**
   * The id list `perform_create` builds from the table: the ids of the biomes of
   * map m whose polygon loop finds the point, one per such biome, in queryset order.
   */
  lemma AutoAssignedIdsInTableOrder(x: real, y: real, biomas: seq<Bioma>, m: int)
    ensures var ids, pos := MatchedIds(x, y, Candidates(biomas, m)), KeptPositions(biomas, FindsOnMap(x, y, m));
      && StrictlyIncreasing(pos)
      && (forall k: nat :: k in pos <==>
            k < |biomas| && biomas[k].mapa == Some(m) && PolygonsMatch(x, y, PolygonsOf(biomas[k])) == Ok(true))
      && |ids| == |pos|
      && forall j | 0 <= j < |ids| :: pos[j] < |biomas| && ids[j] == biomas[pos[j]].id
  {
    MatchedIdsAreKeptIds(x, y, Candidates(biomas, m));
    KeepKeep(biomas, OnMap(m), Finds(x, y), FindsOnMap(x, y, m));
    KeptPositionsIncreasing(biomas, FindsOnMap(x, y, m));
    KeptPositionsExactly(biomas, FindsOnMap(x, y, m));
    KeptPositionsPick(biomas, FindsOnMap(x, y, m));
  }

  /** With distinct keys in the table, the id list `perform_create` builds has no duplicates. */
  lemma AutoAssignedIdsDistinct(x: real, y: real, biomas: seq<Bioma>, m: int)
    requires forall i, j | 0 <= i < j < |biomas| :: biomas[i].id != biomas[j].id
    ensures var ids := MatchedIds(x, y, Candidates(biomas, m));
      forall i, j | 0 <= i < j < |ids| :: ids[i] != ids[j]
  {
    CandidatesDistinct(biomas, m);
    MatchedIdsDistinct(x, y, Candidates(biomas, m));
  }

  // ---------------------------------------------------------------------
  // Properties of perform_create
  // ---------------------------------------------------------------------

  /**
   * A non-empty `_bioma_ids` list whose entries all convert and all name stored
   * biomes becomes the association; the result is the same whatever the position,
   * map or polygons, so no geometry is consulted.
   */
  lemma AssignOverride(current: set<int>, mapa: Option<int>, posX: Option<real>, posY: Option<real>,
                       items: seq<RawId>, biomas: seq<Bioma>)
    requires |items| > 0
    requires forall k | 0 <= k < |items| :: items[k].AsInt? && items[k].n in StoredIds(biomas)
    ensures Assign(current, mapa, posX, posY, IdList(items), biomas) ==
      set k | 0 <= k < |items| :: items[k].n
  {
    var ids := ConvertIds(items).value;
    assert forall k | 0 <= k < |items| :: ids[k] == items[k].n;
    var expected := set k | 0 <= k < |items| :: items[k].n;
    assert ids[0] in expected;
    assert (set i | i in ids) == expected;
  }

  /**
   * No partial application: when an entry fails to convert or names no stored
   * biome, the outcome is the one the request would have had without `_bioma_ids`.
   */
  lemma AssignOverrideRejected(current: set<int>, mapa: Option<int>, posX: Option<real>, posY: Option<real>,
                               items: seq<RawId>, biomas: seq<Bioma>)
    requires (exists k :: 0 <= k < |items| && items[k].NotInt?) ||
             (exists k :: 0 <= k < |items| && items[k].AsInt? && items[k].n !in StoredIds(biomas))
    ensures Assign(current, mapa, posX, posY, IdList(items), biomas) ==
            Assign(current, mapa, posX, posY, Absent, biomas)
  {
    if ConvertIds(items).Some? {
      var k :| 0 <= k < |items| && items[k].AsInt? && items[k].n !in StoredIds(biomas);
      assert ConvertIds(items).value[k] == items[k].n;
    }
  }

  /** A settlement that already has biomes, and no applicable override, keeps them: a second run changes nothing. */
  lemma AssignKeepsExisting(current: set<int>, mapa: Option<int>, posX: Option<real>, posY: Option<real>,
                            manual: ManualIds, biomas: seq<Bioma>)
    requires current != {} && !OverrideApplies(manual, StoredIds(biomas))
    ensures Assign(current, mapa, posX, posY, manual, biomas) == current
  {
  }

  /** Running the procedure again without an override on its own non-empty outcome is a no-op. */
  lemma AssignIdempotent(current: set<int>, mapa: Option<int>, posX: Option<real>, posY: Option<real>,
                         manual: ManualIds, biomas: seq<Bioma>)
    requires Assign(current, mapa, posX, posY, manual, biomas) != {}
    ensures var once := Assign(current, mapa, posX, posY, manual, biomas);
      Assign(once, mapa, posX, posY, Absent, biomas) == once
  {
  }

  /** Without a (truthy) map id or without both coordinates nothing is computed and nothing raises. */
  lemma AssignSkipsUnlocated(current: set<int>, mapa: Option<int>, posX: Option<real>, posY: Option<real>,
                             manual: ManualIds, biomas: seq<Bioma>)
    requires !OverrideApplies(manual, StoredIds(biomas)) && !Locatable(mapa, posX, posY)
    ensures Assign(current, mapa, posX, posY, manual, biomas) == current
  {
  }

  /**
   * Auto-assignment: a biome id ends up associated iff a stored biome with that
   * id belongs to the settlement's map and its polygon loop finds the point.
   * Biomes of other maps, or of no map, never do; biomes whose data raises are
   * skipped without affecting the others; with no match the set stays empty.
   */
  lemma AssignAutoMembership(mapa: Option<int>, posX: Option<real>, posY: Option<real>,
                             manual: ManualIds, biomas: seq<Bioma>, id: int)
    requires !OverrideApplies(manual, StoredIds(biomas)) && Locatable(mapa, posX, posY)
    ensures id in Assign({}, mapa, posX, posY, manual, biomas) <==>
      exists b :: b in biomas && b.mapa == mapa && b.id == id &&
        PolygonsMatch(posX.value, posY.value, PolygonsOf(b)) == Ok(true)
  {
    var cands := Candidates(biomas, mapa.value);
    MatchedIdsMembership(posX.value, posY.value, cands, id);
  }

  /** The settlement on map 1 at the centre of the square biome 7 of map 1 is assigned to it alone. */
  lemma SquareBiomeScenario()
    ensures Assign({}, Some(1), Some(5.0), Some(5.0), Absent, [Bioma(7, Some(1), Some([Square]))]) == {7}
  {
    SquareScenario();
    var biomas := [Bioma(7, Some(1), Some([Square]))];
    assert Candidates(biomas, 1) == biomas;
    assert PolygonOutcomes(5.0, 5.0, [Square]) == [Ok(true)];
    assert MatchedIds(5.0, 5.0, biomas) == [7];
  }

  // ---------------------------------------------------------------------
  // markers
  // ---------------------------------------------------------------------

  /** The `mapa` query parameter: missing, empty, an integer, or text the integer lookup rejects. */
  datatype MapaParam = Missing | Blank | Numeric(id: int) | NotNumeric

  /** A stored settlement row as the marker query reads it, with its persisted biome association. */
  datatype AssentamentoRow = AssentamentoRow(
    id: int, nome: string, tipo: string,
    posX: Option<real>, posY: Option<real>, mapa: Option<int>, bioma: set<int>)

  /** One serialized marker. */
  datatype Marker = Marker(
    id: int, nome: string, tipo: string,
    posX: Option<real>, posY: Option<real>, mapa: Option<int>,
    personagemCount: nat, biomaIds: set<int>)

  /** `Count('personagem')`: the characters originating from settlement `id`. */
  function PersonagemCount(id: int, chars: seq<Personagem>): nat
  {
    if chars == [] then 0
    else PersonagemCount(id, chars[..|chars| - 1]) + (if chars[|chars| - 1].origem == id then 1 else 0)
  }

  /** The row projected onto the marker fields, with its annotated count. */
  function MarkerOf(a: AssentamentoRow, chars: seq<Personagem>): Marker
  {
    Marker(a.id, a.nome, a.tipo, a.posX, a.posY, a.mapa, PersonagemCount(a.id, chars), a.bioma)
  }

  /** The row survives `qs.filter(mapa_id=...)`, which is only applied for a non-empty parameter. */
  predicate Selected(a: AssentamentoRow, param: MapaParam)
  {
    match param
    case Numeric(m) => a.mapa == Some(m)
    case _ => true
  }

  /** `Selected` as a filter condition. */
  function SelectedBy(param: MapaParam): AssentamentoRow -> bool
  {
    (a: AssentamentoRow) => Selected(a, param)
  }

  /** The rows kept by the filter, in queryset order. */
  function SelectRows(rows: seq<AssentamentoRow>, param: MapaParam): seq<AssentamentoRow>
  {
    Keep(rows, SelectedBy(param))
  }

  /** `AssentamentoViewSet.markers`: the marker list, or the lookup error for a non-integer `mapa`. */
  function Markers(rows: seq<AssentamentoRow>, chars: seq<Personagem>, param: MapaParam): (r: Result<seq<Marker>>)
    ensures r.Err? <==> param.NotNumeric?
  {
    if param.NotNumeric? then Err(InvalidLookup)
    else
      var sel := SelectRows(rows, param);
      Ok(seq(|sel|, k requires 0 <= k < |sel| => MarkerOf(sel[k], chars)))
  }

  /** The grouped count equals a direct count of the characters whose origin is the settlement. */
  lemma {:induction false} PersonagemCountIsDirect(id: int, chars: seq<Personagem>)
    ensures PersonagemCount(id, chars) == |set k | 0 <= k < |chars| && chars[k].origem == id|
  {
    if chars != [] {
      var n := |chars| - 1;
      var init := chars[..n];
      PersonagemCountIsDirect(id, init);
      var whole := set k | 0 <= k < |chars| && chars[k].origem == id;
      var before := set k | 0 <= k < |init| && init[k].origem == id;
      if chars[n].origem == id {
        assert whole == before + {n};
      } else {
        assert whole == before;
      }
    }
  }

  /** The filter keeps exactly the selected rows. */
  lemma SelectRowsExactly(rows: seq<AssentamentoRow>, param: MapaParam)
    ensures forall a :: a in SelectRows(rows, param) <==> a in rows && Selected(a, param)
    ensures !param.Numeric? ==> SelectRows(rows, param) == rows
  {
    KeepMembers(rows, SelectedBy(param));
  }

  /**
   * With a map filter exactly the settlements of that map are listed, one marker
   * per row and in queryset order; without one every settlement is. Each marker
   * copies its row and the row's stored biome ids and counts the characters
   * originating from it.
   */
  lemma MarkersExactly(rows: seq<AssentamentoRow>, chars: seq<Personagem>, param: MapaParam)
    requires !param.NotNumeric?
    ensures var ms := Markers(rows, chars, param).value;
      forall a :: a in rows && Selected(a, param) ==> MarkerOf(a, chars) in ms
    ensures var ms := Markers(rows, chars, param).value;
      forall m :: m in ms ==> exists a :: a in rows && Selected(a, param) && m == MarkerOf(a, chars)
    ensures var ms := Markers(rows, chars, param).value;
      && (forall k | 0 <= k < |ms| ::
            ms[k].personagemCount == |set c | 0 <= c < |chars| && chars[c].origem == ms[k].id|)
      && (!param.Numeric? ==> |ms| == |rows| && forall k | 0 <= k < |rows| :: ms[k] == MarkerOf(rows[k], chars))
  {
    SelectRowsExactly(rows, param);
    var sel := SelectRows(rows, param);
    var ms := Markers(rows, chars, param).value;
    forall a | a in rows && Selected(a, param) ensures MarkerOf(a, chars) in ms {
      var k :| 0 <= k < |sel| && sel[k] == a;
      assert ms[k] == MarkerOf(a, chars);
    }
    forall k | 0 <= k < |ms|
      ensures ms[k].personagemCount == |set c | 0 <= c < |chars| && chars[c].origem == ms[k].id|
    {
      assert sel[k] in sel;
      PersonagemCountIsDirect(ms[k].id, chars);
    }
    forall m | m in ms ensures exists a :: a in rows && Selected(a, param) && m == MarkerOf(a, chars) {
      var k :| 0 <= k < |ms| && ms[k] == m;
      var a := sel[k];
      assert a in sel;
      assert a in rows && Selected(a, param);
      assert m == MarkerOf(a, chars);
    }
  }

  /**
   * One marker per selected row, in queryset order: there are as many markers as
   * selected positions, and marker j is the marker of the row at the j-th
   * selected position.
   */
  lemma MarkersOnePerRow(rows: seq<AssentamentoRow>, chars: seq<Personagem>, param: MapaParam)
    requires !param.NotNumeric?
    ensures var ms := Markers(rows, chars, param).value;
      |ms| == |set k | 0 <= k < |rows| && Selected(rows[k], param)|
    ensures var ms, idx := Markers(rows, chars, param).value, KeptPositions(rows, SelectedBy(param));
      |ms| == |idx| && forall j | 0 <= j < |ms| :: idx[j] < |rows| && ms[j] == MarkerOf(rows[idx[j]], chars)
    ensures var idx := KeptPositions(rows, SelectedBy(param));
      StrictlyIncreasing(idx) && forall k: nat :: k in idx <==> k < |rows| && Selected(rows[k], param)
  {
    KeepCount(rows, SelectedBy(param));
    assert PositionsWhere(rows, SelectedBy(param)) == set k | 0 <= k < |rows| && Selected(rows[k], param);
    KeptPositionsPick(rows, SelectedBy(param));
    KeptPositionsIncreasing(rows, SelectedBy(param));
    KeptPositionsExactly(rows, SelectedBy(param));
  }

  /** Three settlements of one map, the first the origin of two characters: the counts are 2, 0 and 0. */
  lemma MarkerCountScenario()
    ensures var rows := [AssentamentoRow(1, "A", "V", Some(1.0), Some(1.0), Some(9), {}),
                         AssentamentoRow(2, "B", "V", Some(2.0), Some(2.0), Some(9), {}),
                         AssentamentoRow(3, "C", "V", Some(3.0), Some(3.0), Some(9), {})];
      var chars := [Personagem(10, 1), Personagem(11, 1)];
      var r := Markers(rows, chars, Numeric(9));
      r.Ok? && |r.value| == 3 &&
      r.value[0].personagemCount == 2 && r.value[1].personagemCount == 0 && r.value[2].personagemCount == 0
  {
    var rows := [AssentamentoRow(1, "A", "V", Some(1.0), Some(1.0), Some(9), {}),
                 AssentamentoRow(2, "B", "V", Some(2.0), Some(2.0), Some(9), {}),
                 AssentamentoRow(3, "C", "V", Some(3.0), Some(3.0), Some(9), {})];
    var chars := [Personagem(10, 1), Personagem(11, 1)];
    assert forall k | 0 <= k < |rows| :: SelectedBy(Numeric(9))(rows[k]);
    SelectRowsExactly(rows, Numeric(9));
    KeepMembers(rows, SelectedBy(Numeric(9)));
    assert SelectRows(rows, Numeric(9)) == rows;
    assert PersonagemCount(1, chars) == 2;
    assert PersonagemCount(2, chars) == 0;
    assert PersonagemCount(3, chars) == 0;
  }
}
