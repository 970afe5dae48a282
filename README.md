# Spatial overlay engine of living-map, in Dafny

This project models the geometric core of the living-map Django application. Users draw
polygonal biomes (`Bioma`) over a map image. A settlement (`Assentamento`) created at a pixel
position is classified into the biomes whose polygons contain it. A marker endpoint then lists
the settlements of a map with their character counts.

The model has four modules:

- `Outcomes` (outcomes.dfy): `Option`, and `Result` with the exceptions the code can raise (`Fault`).
- `Filtering` (filtering.dfy): the order-preserving filter a queryset `filter` applies to a table
  (`Keep`), the positions it keeps, and their order. Both the candidate filter of `perform_create`
  and the map filter of `markers` are instances of it.
- `Models` (models.dfy): the records of mapa/models.py used by the core. It holds `Bioma`,
  `Personagem`, the settlement class `Assentamento` (its biome association is a mutable set),
  and the ray-casting test `ponto_em_poligono`. The test is the loop method `PontoEmPoligono`,
  proved equal to the specification function `Inside`. `Inside` is in turn related to an
  independent definition: the parity of the set of crossed edges (`Crossings`), plus the exact
  conditions under which the call raises.
- `Views` (views.dfy): `perform_create` is the method `PerformCreate`. It updates
  `instance.bioma` in place and is proved equal to the function `Assign`, whose properties are
  lemmas. `markers` is the pure function `Markers`.

Coordinates are `real`. The `1e-12` nudge is kept as the constant `Nudge`. An edge that straddles
the ray with a nudged span of exactly zero raises `ZeroDivisionError` in the code. The model returns
`Err(ZeroDivision)` there (`ZeroSpanScenario` exhibits one such polygon). In a polygon of three or
more entries, an entry that is not an `[x, y]` pair makes the unpacking raise; that is `Err(Unpack)`.
A polygon of fewer than three entries returns False before any entry is unpacked.

Behaviours of the code that the model keeps exactly:

- When one of a biome's polygons raises while no earlier polygon has matched, the biome is skipped as
  a whole; a failing polygon is not skipped on its own. A match on an earlier polygon still counts
  (`FirstMatchFirstHit`). This is how the `except: continue` behind the comment at mapa/views.py:96
  ("ignora biomas com dados inválidos") works: it skips whole biomes.
- In a polygon of three or more entries, a malformed vertex makes `ponto_em_poligono` raise; it is
  not silently ignored. A shorter polygon returns False before any vertex is unpacked.
- The `_bioma_ids` override is all-or-nothing. It applies only when every entry converts with
  `int()` and the store accepts every id. Otherwise nothing from it is applied.
- A map id of `0` is falsy in `if instance.mapa_id`, so it counts as "no map" (`Locatable`).
- In `markers`, a non-empty `mapa` parameter that is not an integer makes the lookup raise
  (`Err(InvalidLookup)`). An unknown integer id yields an empty list.

## Model

| member | source | states |
|---|---|---|
| `Models.PontoEmPoligono` | mapa/models.py:273-289 | the loop returns or raises exactly what `Inside` prescribes; fewer than 3 vertices give `False` |
| `Models.ScanErrPersists` | mapa/models.py:280-285 | once an iteration raises, the call's outcome is that exception |
| `Models.EdgeStepEvaluable` | mapa/models.py:281-287 | on an evaluable polygon an iteration flips the accumulator exactly when its edge is crossed |
| `Models.CrossingsStep` | mapa/models.py:283-287 | going from k to k+1 iterations, the number of crossed edges grows by one exactly when edge k is crossed, and is unchanged otherwise |
| `Models.ScanIsCrossingParity` | mapa/models.py:275-289 | after k iterations the accumulator is the parity of the crossed edges among the first k |
| `Models.InsideIsCrossingParity` | mapa/models.py:273-289 | even-odd rule: inside iff an odd number of the n edges `(i, i-1 mod n)` is crossed, each edge counted once |
| `Models.ScanFailsAt` | mapa/models.py:280-285 | the loop raises iff some iteration raises, and the exception is that of the first raising iteration, every earlier iteration having completed |
| `Models.InsideFails` | mapa/models.py:281-285 | with 3+ vertices the call raises iff a vertex is not a pair or a straddling edge has a zero nudged span; a non-pair always fails; with only pairs the one exception is the division by zero |
| `Models.NonStraddlingEdgeNeverFlips` | mapa/models.py:283-287 | an edge with both ends above, or both at or below, the ray (e.g. a horizontal one) never toggles |
| `Models.ScanWithoutStraddles` | mapa/models.py:280-288 | when every vertex lies on one side of the ray, no iteration toggles |
| `Models.RayOutsideVerticalRange` | mapa/models.py:275-289 | a point whose y is `>=` every vertex y, or `<` every vertex y, is never inside |
| `Models.SquareScenario` | mapa/models.py:273-289 | (5,5) is inside the square (0,0)-(10,10) and (15,5) is not |
| `Models.ZeroSpanScenario` | mapa/models.py:283-285 | a straddling edge of vertical span 1e-12 raises a division by zero despite the nudge |
| `Models.Assentamento.constructor` | mapa/views.py:75 | a settlement saved by the serializer has an empty biome association |
| `Models.Assentamento.SetBioma` | mapa/views.py:80 | `bioma.set(ids)` makes the association exactly the ids when all name stored biomes, and changes nothing otherwise |
| `Views.ConvertIds` | mapa/views.py:80 | the comprehension fails iff some entry does not convert; otherwise it keeps every entry, in order |
| `Views.Candidates` | mapa/views.py:87 | the candidates are exactly the stored biomes whose map is the settlement's map |
| `Views.ScanBiome` | mapa/views.py:90-97 | the polygon loop of one biome returns what `PolygonsMatch` prescribes |
| `Views.MatchCandidates` | mapa/views.py:88-97 | the loop over the candidates collects exactly what `MatchedIds` prescribes |
| `Views.PerformCreate` | mapa/views.py:70-99 | the association after the call is `Assign` of the association before it; no other field changes |
| `Views.FirstMatchFirstHit` | mapa/views.py:91-94 | a biome matches iff some polygon contains the point after earlier ones missed without raising; it raises iff a polygon raises before any match |
| `Views.FirstMatchUnion` | mapa/views.py:91-94 | when no polygon raises, a biome matches iff one of its polygons contains the point |
| `Views.MatchedIdsMembership` | mapa/views.py:88-97 | an id is recorded iff a candidate with that id has a matching polygon loop; raising candidates are skipped and the rest are still evaluated |
| `Views.MatchedIdsAreCandidates` | mapa/views.py:88-99 | every recorded id is a candidate's, so the final `set` always succeeds |
| `Views.MatchedIdsDistinct` | mapa/views.py:88-97 | with distinct biome keys the recorded id list has no duplicates |
| `Views.CandidatesInTableOrder` | mapa/views.py:87 | the filter keeps table order and lists each biome once: the kept positions increase, are exactly those of the biomes of the map, and the j-th candidate is the biome at the j-th kept position |
| `Views.CandidatesDistinct` | mapa/views.py:87 | with distinct keys in the table, the candidates have distinct keys |
| `Views.MatchedIdsAreKeptIds` | mapa/views.py:88-97 | the recorded ids are the ids of the candidates whose polygon loop finds the point, in candidate order |
| `Views.AutoAssignedIdsInTableOrder` | mapa/views.py:86-97 | the list built from the table holds one id per biome of the map whose polygon loop finds the point, in table order: its positions increase and are exactly those biomes' |
| `Views.AutoAssignedIdsDistinct` | mapa/views.py:86-97 | with distinct keys in the table, the list built has no duplicates |
| `Filtering.KeepMembers` | mapa/views.py:87 | an element is kept iff it is in the table and meets the condition; nothing is added; a condition all elements meet keeps the whole table |
| `Filtering.KeptPositionsExactly` | mapa/views.py:87 | a position is kept iff its element meets the condition (the same filter as the `mapa` filter at line 66) |
| `Filtering.KeptPositionsIncreasing` | mapa/views.py:87 | the kept positions are in table order, each once |
| `Filtering.KeptPositionsPick` | mapa/views.py:87 | the j-th kept element is the element at the j-th kept position |
| `Filtering.KeepCount` | mapa/views.py:66 | as many elements are kept as there are positions whose element meets the condition |
| `Filtering.KeepKeep` | mapa/views.py:87-92 | filtering by map and then by the polygon test keeps the same list as filtering by both at once |
| `Views.AssignOverride` | mapa/views.py:77-85 | a non-empty override whose entries all convert and exist becomes the association, independent of map, position and polygons |
| `Views.AssignOverrideRejected` | mapa/views.py:78-82 | an override with an unconvertible or unknown entry has the same outcome as no override |
| `Views.AssignKeepsExisting` | mapa/views.py:84-85 | a settlement that already has biomes keeps them unchanged |
| `Views.AssignIdempotent` | mapa/views.py:84-85 | re-running on a non-empty outcome without an override changes nothing |
| `Views.AssignSkipsUnlocated` | mapa/views.py:86 | without a truthy map id or without both coordinates, the association is left as it was and nothing raises |
| `Views.AssignAutoMembership` | mapa/views.py:86-99 | starting empty, an id ends associated iff a stored biome of the same map with that id matches the point; otherwise the set stays empty |
| `Views.SquareBiomeScenario` | mapa/views.py:86-99 | a settlement at (5,5) on map 1 is assigned to the square biome of map 1 |
| `Views.Markers` | mapa/views.py:59-68 | the endpoint fails exactly for a non-integer `mapa` parameter |
| `Views.PersonagemCountIsDirect` | mapa/views.py:62 | the annotated count equals a direct count of the characters whose `origem` is the settlement |
| `Views.SelectRowsExactly` | mapa/views.py:64-66 | the filter keeps exactly the rows of the requested map; without a non-empty parameter it keeps all rows |
| `Views.MarkersExactly` | mapa/views.py:59-68 | exactly the selected settlements are listed (all of them, in order, without a filter); each marker carries its row's fields and stored biome ids, and its count is the direct character count |
| `Views.MarkersOnePerRow` | mapa/views.py:64-67 | one marker per selected row, in row order: the list has as many markers as selected positions, and marker j is the marker of the row at the j-th selected position, the positions being exactly the selected ones in increasing order |
| `Views.MarkerCountScenario` | mapa/views.py:59-68 | three settlements of one map, one the origin of two characters, give counts 2, 0, 0 |

## Left out

- Floating point: coordinates are reals; IEEE-754 rounding of the intercept is not modelled. Only an exactly zero divisor is an error.
- Vertices that are pairs of non-numbers (strings, nulls) are not modelled. A vertex is either a pair of reals or `Malformed`, meaning it does not unpack into two values.
- Polygon lists that are neither a JSON list nor null, and polygon entries that are not lists, are not modelled.
- `int()` conversion of `_bioma_ids` entries is abstracted: an entry is `AsInt(n)`, the value `int()` returns (truncation of floats, parsing of digit strings), or `NotInt`.
- Store acceptance of `bioma.set` is modelled as "every id is the key of a stored biome". Under autocommit, `set` runs in its own transaction, so a rejected id is rolled back inside the `try` at mapa/views.py:79-82, as modelled. A request that runs inside an outer transaction, where a deferred foreign-key failure escapes that `try` or breaks the next query, is not modelled.
- Django ORM, DRF serializers and request parsing are replaced by sequences: `biomas` is the biome table in the order its queryset returns it, which is by `nome` (`Meta.ordering` at mapa/models.py:36), and markers read settlement rows (ordered by `nome`, mapa/models.py:267) and characters as sequences. "Table order" and "row order" below mean these queryset orders; every property holds for any input order.
- `Views.MarkersExactly`: marker `bioma_ids` is modelled as a set, so the order of the primary-key list is not stated. `tipo_display` is left out because it only looks up a choice table.
- `MapaMundo.save` (image dimension extraction through Pillow and storage), choice tables, `__str__`, `Meta.ordering`, the HTML views, the user and group viewsets, `MapaMundoViewSet.latest`, URL routing, admin screens and the S3 configuration are outside the overlay engine.
- The read-then-write of `perform_create` is not atomic against the store; concurrent edits of a biome's polygons are not modelled.
