/** The effect overlay: traffic jams, blocked ways and traffic lights, and the
    recompute pass that derives live edge weights from the original-weight
    snapshot and the active effects. The pass itself is a method of the
    session; these functions state what it computes. */
module Effects {
  import opened Weights
  import opened Geometry
  import opened Graph

  /** A line drawn on the map. */
  datatype Segment = Segment(p1: Point, p2: Point)

  /** A traffic jam adds `increase` to every edge near its line. */
  datatype Jam = Jam(line: Segment, increase: real)

  /** A block way makes every edge near its line impassable. */
  datatype Block = Block(line: Segment)

  /** A traffic light adds the current modifier of its running clock. */
  datatype Light = Light(line: Segment, modifier: real)

  /** The proximity query find_edges_near_line(p1, p2, threshold) at the fixed
      threshold, for the graph as it currently is. */
  type NearQuery = Segment -> set<Edge>

  /** Step 1: every edge of the snapshot that still exists gets its original weight. */
  function Reset(E: EdgeMap, original: map<Edge, Weight>): (r: EdgeMap)
    ensures r.Keys == E.Keys
    ensures forall e :: e in E && e in original ==> r[e] == Weighted(original[e])
    ensures forall e :: e in E && e !in original ==> r[e] == E[e]
  {
    map e | e in E :: if e in original then Weighted(original[e]) else E[e]
  }

  /** modify_edge_weight(u, v, add_weight=d) for every (u, v) in S. */
  function AddOn(E: EdgeMap, S: set<Edge>, d: real): (r: EdgeMap)
    ensures r.Keys == E.Keys
  {
    map e | e in E :: if e in S then AddToAttr(E[e], d) else E[e]
  }

  /** modify_edge_weight(u, v, set_weight=inf) for every (u, v) in S. */
  function BlockOn(E: EdgeMap, S: set<Edge>): (r: EdgeMap)
    ensures r.Keys == E.Keys
  {
    map e | e in E :: if e in S then Weighted(Inf) else E[e]
  }

  /** Step 2: the jams, in list order. */
  function ApplyJams(E: EdgeMap, jams: seq<Jam>, near: NearQuery): (r: EdgeMap)
    ensures r.Keys == E.Keys
    decreases |jams|
  {
    if |jams| == 0 then E
    else
      var j := jams[|jams| - 1];
      AddOn(ApplyJams(E, jams[..|jams| - 1], near), near(j.line), j.increase)
  }

  /** Step 3: the block ways, in list order. */
  function ApplyBlocks(E: EdgeMap, blocks: seq<Block>, near: NearQuery): (r: EdgeMap)
    ensures r.Keys == E.Keys
    decreases |blocks|
  {
    if |blocks| == 0 then E
    else BlockOn(ApplyBlocks(E, blocks[..|blocks| - 1], near), near(blocks[|blocks| - 1].line))
  }

  /** Step 4: the traffic lights, each adding its current modifier. */
  function ApplyLights(E: EdgeMap, lights: seq<Light>, near: NearQuery): (r: EdgeMap)
    ensures r.Keys == E.Keys
    decreases |lights|
  {
    if |lights| == 0 then E
    else
      var l := lights[|lights| - 1];
      AddOn(ApplyLights(E, lights[..|lights| - 1], near), near(l.line), l.modifier)
  }

  /** The weights after one full recompute pass, in the pass's order:
      reset, jams, blocks, lights. */
  function Recomputed(E: EdgeMap, original: map<Edge, Weight>, jams: seq<Jam>, blocks: seq<Block>,
                      lights: seq<Light>, near: NearQuery): (r: EdgeMap)
    ensures r.Keys == E.Keys
  {
    ApplyLights(ApplyBlocks(ApplyJams(Reset(E, original), jams, near), blocks, near), lights, near)
  }

  /** Total jam increase that reaches edge e. */
  function JamSum(jams: seq<Jam>, near: NearQuery, e: Edge): real
    decreases |jams|
  {
    if |jams| == 0 then 0.0
    else
      var j := jams[|jams| - 1];
      JamSum(jams[..|jams| - 1], near, e) + (if e in near(j.line) then j.increase else 0.0)
  }

  /** Total light modifier that reaches edge e. */
  function LightSum(lights: seq<Light>, near: NearQuery, e: Edge): real
    decreases |lights|
  {
    if |lights| == 0 then 0.0
    else
      var l := lights[|lights| - 1];
      LightSum(lights[..|lights| - 1], near, e) + (if e in near(l.line) then l.modifier else 0.0)
  }

  /** Some block way's line is near edge e. */
  predicate Blocked(blocks: seq<Block>, near: NearQuery, e: Edge)
  {
    exists i :: 0 <= i < |blocks| && e in near(blocks[i].line)
  }

  /** The weight an edge starts the effect steps from. */
  function Base(E: EdgeMap, original: map<Edge, Weight>, e: Edge): Attr
    requires e in E
  {
    if e in original then Weighted(original[e]) else E[e]
  }

  lemma {:induction false} ApplyJamsAt(E: EdgeMap, jams: seq<Jam>, near: NearQuery, e: Edge)
    requires e in E
    ensures ApplyJams(E, jams, near)[e] == AddToAttr(E[e], JamSum(jams, near, e))
    decreases |jams|
  {
    if |jams| > 0 {
      ApplyJamsAt(E, jams[..|jams| - 1], near, e);
    }
  }

  lemma {:induction false} ApplyLightsAt(E: EdgeMap, lights: seq<Light>, near: NearQuery, e: Edge)
    requires e in E
    ensures ApplyLights(E, lights, near)[e] == AddToAttr(E[e], LightSum(lights, near, e))
    decreases |lights|
  {
    if |lights| > 0 {
      ApplyLightsAt(E, lights[..|lights| - 1], near, e);
    }
  }

  lemma {:induction false} ApplyBlocksAt(E: EdgeMap, blocks: seq<Block>, near: NearQuery, e: Edge)
    requires e in E
    ensures ApplyBlocks(E, blocks, near)[e] == if Blocked(blocks, near, e) then Weighted(Inf) else E[e]
    decreases |blocks|
  {
    if |blocks| > 0 {
      var init := blocks[..|blocks| - 1];
      ApplyBlocksAt(E, init, near, e);
      if Blocked(init, near, e) {
        var i :| 0 <= i < |init| && e in near(init[i].line);
        assert blocks[i] == init[i];
      }
    }
  }

  /** Closed form of one recompute pass on an existing edge: an edge near any
      block way is +infinity whatever jams and lights touch it; otherwise it is
      its base weight plus every jam increase and light modifier that reaches it. */
  lemma RecomputedAt(E: EdgeMap, original: map<Edge, Weight>, jams: seq<Jam>, blocks: seq<Block>,
                     lights: seq<Light>, near: NearQuery, e: Edge)
    requires e in E
    ensures Recomputed(E, original, jams, blocks, lights, near)[e]
            == if Blocked(blocks, near, e) then Weighted(Inf)
               else AddToAttr(Base(E, original, e), JamSum(jams, near, e) + LightSum(lights, near, e))
  {
    var R := Reset(E, original);
    assert R[e] == Base(E, original, e);
    EffectsAt(R, jams, blocks, lights, near, e);
  }

  /** The effect steps on one edge, from whatever weight the edge starts with. */
  lemma EffectsAt(R: EdgeMap, jams: seq<Jam>, blocks: seq<Block>, lights: seq<Light>, near: NearQuery, e: Edge)
    requires e in R
    ensures ApplyLights(ApplyBlocks(ApplyJams(R, jams, near), blocks, near), lights, near)[e]
            == if Blocked(blocks, near, e) then Weighted(Inf)
               else AddToAttr(R[e], JamSum(jams, near, e) + LightSum(lights, near, e))
  {
    JamsThenBlocksAt(R, jams, blocks, near, e);
    LightsAfterBlocksAt(ApplyBlocks(ApplyJams(R, jams, near), blocks, near), lights, near, e,
                        R[e], JamSum(jams, near, e), Blocked(blocks, near, e));
  }

  /** The jam and block steps on one edge. */
  lemma JamsThenBlocksAt(R: EdgeMap, jams: seq<Jam>, blocks: seq<Block>, near: NearQuery, e: Edge)
    requires e in R
    ensures ApplyBlocks(ApplyJams(R, jams, near), blocks, near)[e]
            == if Blocked(blocks, near, e) then Weighted(Inf) else AddToAttr(R[e], JamSum(jams, near, e))
  {
    ApplyJamsAt(R, jams, near, e);
    ApplyBlocksAt(ApplyJams(R, jams, near), blocks, near, e);
  }

  /** The light step on one edge after the block step: a blocked edge stays
      +infinity, any other gets the light modifiers added to its jam sum. */
  lemma LightsAfterBlocksAt(B: EdgeMap, lights: seq<Light>, near: NearQuery, e: Edge,
                            base: Attr, js: real, blocked: bool)
    requires e in B
    requires B[e] == if blocked then Weighted(Inf) else AddToAttr(base, js)
    ensures ApplyLights(B, lights, near)[e]
            == if blocked then Weighted(Inf) else AddToAttr(base, js + LightSum(lights, near, e))
  {
    ApplyLightsAt(B, lights, near, e);
    AddToAttrTwice(base, js, LightSum(lights, near, e));
  }

  /** Block precedence: an existing edge that a block way reaches is +infinity
      after the pass, even when jams and lights reach it too. */
  lemma BlockPrecedence(E: EdgeMap, original: map<Edge, Weight>, jams: seq<Jam>, blocks: seq<Block>,
                        lights: seq<Light>, near: NearQuery, i: int, e: Edge)
    requires e in E && 0 <= i < |blocks| && e in near(blocks[i].line)
    ensures Recomputed(E, original, jams, blocks, lights, near)[e] == Weighted(Inf)
  {
    RecomputedAt(E, original, jams, blocks, lights, near, e);
  }

  /** On a snapshot edge, the pass forgets the weights it started from: any two
      graphs that both contain the edge end with the same weight on it. This is
      the order-independence of effect edits (add E1, add E2, remove E1 leaves
      what adding E2 alone leaves). */
  lemma RecomputeForgetsHistory(E1: EdgeMap, E2: EdgeMap, original: map<Edge, Weight>, jams: seq<Jam>,
                                blocks: seq<Block>, lights: seq<Light>, near: NearQuery, e: Edge)
    requires e in E1 && e in E2 && e in original
    ensures Recomputed(E1, original, jams, blocks, lights, near)[e]
            == Recomputed(E2, original, jams, blocks, lights, near)[e]
  {
    RecomputedAt(E1, original, jams, blocks, lights, near, e);
    RecomputedAt(E2, original, jams, blocks, lights, near, e);
  }

  /** Two passes with the same effects give the same weights on every snapshot edge. */
  lemma RecomputeIdempotentOnSnapshot(E: EdgeMap, original: map<Edge, Weight>, jams: seq<Jam>,
                                      blocks: seq<Block>, lights: seq<Light>, near: NearQuery)
    ensures var once := Recomputed(E, original, jams, blocks, lights, near);
            forall e :: e in E && e in original ==>
              Recomputed(once, original, jams, blocks, lights, near)[e] == once[e]
  {
    var once := Recomputed(E, original, jams, blocks, lights, near);
    forall e | e in E && e in original
      ensures Recomputed(once, original, jams, blocks, lights, near)[e] == once[e]
    {
      RecomputeForgetsHistory(once, E, original, jams, blocks, lights, near, e);
    }
  }

  /** With no active effect, the pass restores the snapshot and leaves every
      other edge alone. */
  lemma NoEffectsRestoresSnapshot(E: EdgeMap, original: map<Edge, Weight>, near: NearQuery, e: Edge)
    requires e in E
    ensures Recomputed(E, original, [], [], [], near)[e]
            == if e in original then Weighted(original[e]) else E[e]
  {
  }

  /** Edges outside the snapshot (the ones a virtual node adds) are never reset,
      so an unblocked one that effects reach drifts by their total on every pass. */
  lemma NonSnapshotEdgesAccumulate(E: EdgeMap, original: map<Edge, Weight>, jams: seq<Jam>,
                                   blocks: seq<Block>, lights: seq<Light>, near: NearQuery,
                                   e: Edge, w: real)
    requires e in E && e !in original && E[e] == Weighted(Fin(w))
    requires !Blocked(blocks, near, e)
    ensures var d := JamSum(jams, near, e) + LightSum(lights, near, e);
            var once := Recomputed(E, original, jams, blocks, lights, near);
            once[e] == Weighted(Fin(w + d)) &&
            Recomputed(once, original, jams, blocks, lights, near)[e] == Weighted(Fin(w + 2.0 * d))
  {
    var once := Recomputed(E, original, jams, blocks, lights, near);
    RecomputedAt(E, original, jams, blocks, lights, near, e);
    RecomputedAt(once, original, jams, blocks, lights, near, e);
  }
}
