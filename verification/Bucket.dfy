/** Sparsity buckets: one pattern for a whole interval of relative angles, found again by identity. */
module Bucket {
  import opened Reals
  import opened Wrappers
  import opened Angles
  import opened Modular
  import opened StableOrder
  import opened RingTurning
  import opened AirGapRing
  import opened AirGapPosition
  import opened Tiling
  import opened EntryOrder
  import opened Stencil
  import opened Crossing
  import opened PeriodicClosure

  /** The angles asked for one air-gap boundary; a prepared analysis lists them in boundary order. */
  datatype GapPosition = GapPosition(id: nat, innerAngle: real, outerAngle: real)

  /** The identity string, as the values it prints. */
  datatype Identity = Identity(width: real, indices: seq<(nat, int)>)

  datatype BucketDefinition = BucketDefinition(identity: Identity, upperEntries: seq<Entry>)

  function RelativeAngle(p: GapPosition): real {
    CanonicalDegrees(p.innerAngle - p.outerAngle)
  }

  function BucketIndex(p: GapPosition, width: real): int
    requires width > 0.0
  {
    (RelativeAngle(p) / width).Floor
  }

  function IdentityOf(prepared: seq<GapPosition>, width: real): Identity
    requires width > 0.0
  {
    Identity(width, seq(|prepared|, i requires 0 <= i < |prepared| => (prepared[i].id, BucketIndex(prepared[i], width))))
  }

  // ----- the sampled window

  function WindowBegin(index: int, width: real): real {
    index as real * width
  }

  function WindowEnd(index: int, width: real): real {
    if WindowBegin(index, width) + width > FULL_TURN then FULL_TURN else WindowBegin(index, width) + width
  }

  /** The number before `end` on the way to `begin`, `ulp` standing for the gap between numbers. */
  function NextToward(end: real, begin: real, ulp: real): real {
    if end - ulp < begin then begin else end - ulp
  }

  /** How many steps are left; it falls by one with every step. */
  function StepsLeft(at: real, limit: real, step: real): int
    requires step > 0.0
  {
    ((limit - at) / step).Floor
  }

  lemma StepTaken(at: real, limit: real, step: real)
    requires step > 0.0
    ensures StepsLeft(at + step, limit, step) == StepsLeft(at, limit, step) - 1
    ensures at <= limit ==> StepsLeft(at, limit, step) >= 0
  {
    var x, y := (limit - at) / step, (limit - (at + step)) / step;
    QuotientSum(limit - (at + step), 1.0, step);
    assert x == y + 1.0;
    if at <= limit {
      DivMonotone(0.0, limit - at, step);
    }
  }

  /** Both sides of each ring-point event in the window. */
  function EventSamples(event: real, begin: real, end: real, last: real, pitch: real, epsilon: real): seq<real>
    requires pitch > 0.0
    decreases StepsLeft(event, end + pitch, pitch) + 1
  {
    if event > end + pitch then [] else
      StepTaken(event, end + pitch, pitch);
      (if begin <= event < end then [Greater(begin, event - epsilon), Lesser(last, event + epsilon)] else [])
      + EventSamples(event + pitch, begin, end, last, pitch, epsilon)
  }

  function GridSamples(sample: real, end: real, half: real): seq<real>
    requires half > 0.0
    decreases StepsLeft(sample, end, half) + 1
  {
    if sample >= end then [] else
      StepTaken(sample, end, half);
      [sample] + GridSamples(sample + half, end, half)
  }

  function FirstEvent(begin: real, pitch: real): real
    requires pitch > 0.0
  {
    (begin / pitch).Floor as real * pitch
  }

  function Epsilon(pitch: real): real {
    Greater(0.0000000001, pitch * 0.000000001)
  }

  function HalfPitch(pitch: real): (half: real)
    requires pitch > 0.0
    ensures half > 0.0
  {
    pitch * 0.5
  }

  function Samples(index: int, width: real, pitch: real, ulp: real): seq<real>
    requires pitch > 0.0
  {
    var begin, end := WindowBegin(index, width), WindowEnd(index, width);
    var last := NextToward(end, begin, ulp);
    [begin, last]
    + EventSamples(FirstEvent(begin, pitch), begin, end, last, pitch, Epsilon(pitch))
    + GridSamples(begin, end, HalfPitch(pitch))
  }

  method CollectEvents(first: real, begin: real, end: real, last: real, pitch: real, epsilon: real) returns (samples: seq<real>)
    requires pitch > 0.0
    ensures samples == EventSamples(first, begin, end, last, pitch, epsilon)
  {
    samples := [];
    var event := first;
    ghost var all := EventSamples(first, begin, end, last, pitch, epsilon);
    while event <= end + pitch
      invariant all == samples + EventSamples(event, begin, end, last, pitch, epsilon)
      decreases StepsLeft(event, end + pitch, pitch) + 1
    {
      StepTaken(event, end + pitch, pitch);
      if begin <= event && event < end {
        samples := samples + [Greater(begin, event - epsilon), Lesser(last, event + epsilon)];
      }
      event := event + pitch;
    }
  }

  method CollectGrid(begin: real, end: real, half: real) returns (samples: seq<real>)
    requires half > 0.0
    ensures samples == GridSamples(begin, end, half)
  {
    samples := [];
    var sample := begin;
    while sample < end
      invariant GridSamples(begin, end, half) == samples + GridSamples(sample, end, half)
      decreases StepsLeft(sample, end, half) + 1
    {
      StepTaken(sample, end, half);
      samples := samples + [sample];
      sample := sample + half;
    }
  }

  method CollectSamples(index: int, width: real, pitch: real, ulp: real) returns (samples: seq<real>)
    requires pitch > 0.0
    ensures samples == Samples(index, width, pitch, ulp)
  {
    var begin, end := WindowBegin(index, width), WindowEnd(index, width);
    var last := NextToward(end, begin, ulp);
    var events := CollectEvents(FirstEvent(begin, pitch), begin, end, last, pitch, Epsilon(pitch));
    var grid := CollectGrid(begin, end, HalfPitch(pitch));
    samples := [begin, last] + events + grid;
  }

  // ----- what a definition holds

  /** The first gap of that name. */
  function FindGap(gaps: seq<Gap>, name: string): int {
    if gaps == [] then -1
    else if gaps[0].name == name then 0
    else var rest := FindGap(gaps[1..], name); if rest < 0 then -1 else rest + 1
  }

  lemma FindGapInRange(gaps: seq<Gap>, name: string)
    ensures -1 <= FindGap(gaps, name) < |gaps|
    ensures FindGap(gaps, name) >= 0 ==> gaps[FindGap(gaps, name)].name == name
  {
  }

  /** It is the first: the gaps before it have other names, and without it all have. */
  lemma {:induction false} FindGapIsFirst(gaps: seq<Gap>, name: string)
    ensures forall j :: 0 <= j < |gaps| && (FindGap(gaps, name) < 0 || j < FindGap(gaps, name)) ==> gaps[j].name != name
  {
    if gaps != [] {
      FindGapIsFirst(gaps[1..], name);
      forall j | 0 <= j < |gaps| && (FindGap(gaps, name) < 0 || j < FindGap(gaps, name)) ensures gaps[j].name != name {
        if j > 0 { assert gaps[1..][j - 1] == gaps[j]; }
      }
    }
  }

  lemma FindsFirst(gaps: seq<Gap>, k: nat)
    requires k < |gaps| && forall j :: 0 <= j < k ==> gaps[j].name != gaps[k].name
    ensures FindGap(gaps, gaps[k].name) == k
  {
    FindGapInRange(gaps, gaps[k].name);
    FindGapIsFirst(gaps, gaps[k].name);
  }

  /** What the solver relies on in a gap of its mesh. Import checks the node numbers and the number of
      brackets; that there is an arc with elements, and not more elements than ring points, is what
      the mesher delivers and the positioning divides and indexes by. */
  ghost predicate Imported(g: Gap, numNodes: nat) {
    && Positionable(g) && g.totalArcLength > 0.0 && g.totalArcElements > 0
    && |g.quadrature| == g.totalArcElements + 1
    && NodesWithin(g.quadrature, numNodes)
    && RingWithin(g.innerRing, numNodes) && RingWithin(g.outerRing, numNodes)
  }

  ghost predicate RingWithin(ring: seq<RingPoint>, numNodes: nat) {
    forall i :: 0 <= i < |ring| ==> 0 <= ring[i].item.node < numNodes
  }

  ghost predicate NodesWithin(quad: seq<Bracket>, numNodes: nat) {
    forall i :: 0 <= i < |quad| ==>
      0 <= quad[i].inner0.node < numNodes && 0 <= quad[i].inner1.node < numNodes
      && 0 <= quad[i].outer0.node < numNodes && 0 <= quad[i].outer1.node < numNodes
  }

  /** The entries of one gap at one sampled relative angle. */
  ghost function SampleEntries(g: Gap, sample: real): set<Entry>
    requires Positionable(g) && |g.quadrature| == g.totalArcElements + 1
  {
    var positioned := PositionedGap(g, sample, 0.0);
    if positioned.Done? then Structure(positioned.value.quadrature, g.totalArcElements) else {}
  }

  /** Some gap asked for brings the nodes of `e` together at some sample of its window. */
  ghost predicate Sampled(gaps: seq<Gap>, names: seq<string>, prepared: seq<GapPosition>, width: real, ulp: real, numNodes: nat, e: Entry)
    requires width > 0.0
    requires forall k :: 0 <= k < |gaps| ==> Imported(gaps[k], numNodes)
    requires forall k :: 0 <= k < |prepared| ==> prepared[k].id < |names|
  {
    exists k :: 0 <= k < |prepared| && SampledFor(gaps, names, prepared[k], width, ulp, numNodes, e)
  }

  ghost predicate SampledFor(gaps: seq<Gap>, names: seq<string>, p: GapPosition, width: real, ulp: real, numNodes: nat, e: Entry)
    requires width > 0.0 && p.id < |names|
    requires forall k :: 0 <= k < |gaps| ==> Imported(gaps[k], numNodes)
  {
    FindGapInRange(gaps, names[p.id]);
    var found := FindGap(gaps, names[p.id]);
    found >= 0 && SampledGap(gaps[found], BucketIndex(p, width), width, ulp, numNodes, e)
  }

  ghost predicate SampledGap(g: Gap, index: int, width: real, ulp: real, numNodes: nat, e: Entry)
    requires Imported(g, numNodes)
  {
    exists s :: s in Samples(index, width, Step(g), ulp) && e in SampleEntries(g, s)
  }

  // ----- building a definition

  lemma RepositionedWithin(ring: seq<RingPoint>, step: real, angle: real, numNodes: nat)
    requires step > 0.0 && RingWithin(ring, numNodes)
    ensures RingWithin(Repositioned(ring, step, angle), numNodes)
  {
    var turned := Turned(ring, step, angle);
    forall i | 0 <= i < |Repositioned(ring, step, angle)| ensures 0 <= Repositioned(ring, step, angle)[i].item.node < numNodes {
      SameMembers(turned, Repositioned(ring, step, angle), Repositioned(ring, step, angle)[i]);
    }
  }

  lemma PositionedStaysImported(g: Gap, inner: real, outer: real, numNodes: nat)
    requires Imported(g, numNodes) && PositionedGap(g, inner, outer).Done?
    ensures Imported(PositionedGap(g, inner, outer).value, numNodes)
  {
    if g.innerRing != [] && g.outerRing != [] {
      RepositionedWithin(g.innerRing, Step(g), inner, numNodes);
      RepositionedWithin(g.outerRing, Step(g), outer, numNodes);
    }
  }

  lemma StructureWithin(quad: seq<Bracket>, n: nat, numNodes: nat)
    requires |quad| == n + 1 && NodesWithin(quad, numNodes)
    ensures forall e :: e in Structure(quad, n) ==> 0 <= e.0 < numNodes && 0 <= e.1 < numNodes
  {
    forall e | e in Structure(quad, n) ensures 0 <= e.0 < numNodes && 0 <= e.1 < numNodes {
      var k :| 0 <= k < n && e in PairsOf(NodesIn(ReadStencil(quad, n, k)));
      var nodes := NodesIn(ReadStencil(quad, n, k));
      assert 0 <= BeforeIndex(n, k) < |quad| && 0 <= BeyondIndex(n, k) < |quad|;
      assert forall i :: 0 <= i < |nodes| ==> 0 <= nodes[i] < numNodes;
    }
  }

  ghost predicate EntriesWithin(entries: seq<Entry>, numNodes: nat) {
    forall k :: 0 <= k < |entries| ==> 0 <= entries[k].0 < numNodes && 0 <= entries[k].1 < numNodes
  }

  /** Append the entries of one gap at all samples of a window. */
  method AppendSamples(g: Gap, samples: seq<real>, numNodes: nat, entries: seq<Entry>) returns (ok: bool, extended: seq<Entry>)
    requires Imported(g, numNodes) && EntriesWithin(entries, numNodes)
    ensures EntriesWithin(extended, numNodes)
    ensures ok <==> forall s :: s in samples ==> PositionedGap(g, s, 0.0).Done?
    ensures ok ==> forall e :: e in extended <==> (e in entries || exists s :: s in samples && e in SampleEntries(g, s))
  {
    extended := entries;
    var k := 0;
    while k < |samples|
      invariant 0 <= k <= |samples| && EntriesWithin(extended, numNodes)
      invariant forall s :: s in samples[..k] ==> PositionedGap(g, s, 0.0).Done?
      invariant forall e :: e in extended <==> (e in entries || exists s :: s in samples[..k] && e in SampleEntries(g, s))
    {
      var candidate := new AirGapElement(g);
      var placed := candidate.PositionGap(samples[k], 0.0);
      if !placed {
        return false, extended;
      }
      PositionedStaysImported(g, samples[k], 0.0, numNodes);
      StructureWithin(candidate.quadNode, g.totalArcElements, numNodes);
      ghost var before := extended;
      extended := AppendAgeStructure(candidate.quadNode, candidate.totalArcElements, extended);
      forall e ensures e in extended <==> (e in before || e in SampleEntries(g, samples[k])) {
        assert e in extended <==> e in AsSet(extended);
        assert e in before <==> e in AsSet(before);
      }
      assert samples[..k + 1] == samples[..k] + [samples[k]];
      k := k + 1;
    }
    assert samples[..|samples|] == samples;
    ok := true;
  }

  /** The gaps that build no pattern: their two cached rings differ in size. */
  ghost predicate RingsMatch(g: Gap) {
    g.innerRing == [] || g.outerRing == [] || |g.innerRing| == |g.outerRing|
  }

  ghost predicate AllMatch(gaps: seq<Gap>, names: seq<string>, prepared: seq<GapPosition>)
    requires forall k :: 0 <= k < |prepared| ==> prepared[k].id < |names|
  {
    forall k :: 0 <= k < |prepared| ==> MatchesFor(gaps, names[prepared[k].id])
  }

  ghost predicate MatchesFor(gaps: seq<Gap>, name: string) {
    FindGapInRange(gaps, name);
    FindGap(gaps, name) >= 0 ==> RingsMatch(gaps[FindGap(gaps, name)])
  }

  method LookUpGap(gaps: seq<Gap>, name: string) returns (found: int)
    ensures found == FindGap(gaps, name) && -1 <= found < |gaps|
  {
    found := 0;
    while found < |gaps|
      invariant 0 <= found <= |gaps|
      invariant FindGap(gaps, name) == if FindGap(gaps[found..], name) < 0 then -1 else found + FindGap(gaps[found..], name)
    {
      if gaps[found].name == name {
        return;
      }
      found := found + 1;
    }
    found := -1;
  }

  /** The samples of one gap. */
  method SampleGap(g: Gap, index: int, width: real, ulp: real, numNodes: nat, entries: seq<Entry>) returns (ok: bool, extended: seq<Entry>)
    requires Imported(g, numNodes) && EntriesWithin(entries, numNodes)
    ensures EntriesWithin(extended, numNodes)
    ensures ok <==> RingsMatch(g)
    ensures ok ==> forall e :: e in extended <==> (e in entries || SampledGap(g, index, width, ulp, numNodes, e))
  {
    var pitch := g.totalArcLength / g.totalArcElements as real;
    var samples := CollectSamples(index, width, pitch, ulp);
    ok, extended := AppendSamples(g, samples, numNodes, entries);
    assert samples[0] in samples;
  }

  lemma BoundarySampled(gaps: seq<Gap>, names: seq<string>, p: GapPosition, width: real, ulp: real, numNodes: nat, found: nat)
    requires width > 0.0 && p.id < |names| && found < |gaps| && found == FindGap(gaps, names[p.id])
    requires forall k :: 0 <= k < |gaps| ==> Imported(gaps[k], numNodes)
    ensures forall e :: SampledFor(gaps, names, p, width, ulp, numNodes, e) <==>
      SampledGap(gaps[found], BucketIndex(p, width), width, ulp, numNodes, e)
  {
  }

  /** The samples of one asked-for boundary. */
  method AppendBoundary(gaps: seq<Gap>, names: seq<string>, p: GapPosition, width: real, ulp: real, numNodes: nat, entries: seq<Entry>)
    returns (ok: bool, extended: seq<Entry>)
    requires width > 0.0 && p.id < |names|
    requires forall k :: 0 <= k < |gaps| ==> Imported(gaps[k], numNodes)
    requires EntriesWithin(entries, numNodes)
    ensures EntriesWithin(extended, numNodes)
    ensures ok <==> MatchesFor(gaps, names[p.id])
    ensures ok ==> forall e :: e in extended <==> (e in entries || SampledFor(gaps, names, p, width, ulp, numNodes, e))
  {
    var found := LookUpGap(gaps, names[p.id]);
    if found < 0 {
      return true, entries;
    }
    var relative := CanonicalDegrees(p.innerAngle - p.outerAngle);
    var index := (relative / width).Floor;
    ok, extended := SampleGap(gaps[found], index, width, ulp, numNodes, entries);
    BoundarySampled(gaps, names, p, width, ulp, numNodes, found);
  }

  /** The definition of the bucket that the asked-for angles fall in. */
  method BuildCudssBucket(gaps: seq<Gap>, names: seq<string>, prepared: seq<GapPosition>, width: real, ulp: real,
                          pairs: seq<(int, int)>, numNodes: nat)
    returns (r: Outcome<BucketDefinition, PositionError>)
    requires width > 0.0
    requires forall k :: 0 <= k < |gaps| ==> Imported(gaps[k], numNodes)
    requires forall k :: 0 <= k < |prepared| ==> prepared[k].id < |names|
    requires InRange(pairs, numNodes)
    ensures r.Done? <==> AllMatch(gaps, names, prepared)
    ensures r.Done? ==> IsDefinition(r.value, gaps, names, prepared, width, ulp, pairs, numNodes)
  {
    var entries: seq<Entry> := [];
    var k := 0;
    while k < |prepared|
      invariant 0 <= k <= |prepared| && EntriesWithin(entries, numNodes)
      invariant forall j :: 0 <= j < k ==> MatchesFor(gaps, names[prepared[j].id])
      invariant CollectedUpTo(entries, gaps, names, prepared, width, ulp, numNodes, k)
    {
      var ok;
      ghost var before := entries;
      ok, entries := AppendBoundary(gaps, names, prepared[k], width, ulp, numNodes, entries);
      if !ok {
        return Failed(InvalidRingTopology);
      }
      CollectNext(before, entries, gaps, names, prepared, width, ulp, numNodes, k);
      k := k + 1;
    }
    var closed := CloseUnderPeriodicConstraints(pairs, numNodes, entries);
    assert IsSource(AsSet(entries), gaps, names, prepared, width, ulp, numNodes);
    r := Done(BucketDefinition(IdentityOf(prepared, width), SortedUnique(closed)));
  }

  ghost predicate CollectedUpTo(entries: seq<Entry>, gaps: seq<Gap>, names: seq<string>, prepared: seq<GapPosition>, width: real, ulp: real, numNodes: nat, k: nat)
    requires width > 0.0 && k <= |prepared|
    requires forall k :: 0 <= k < |gaps| ==> Imported(gaps[k], numNodes)
    requires forall k :: 0 <= k < |prepared| ==> prepared[k].id < |names|
  {
    forall e :: e in entries <==> exists j :: 0 <= j < k && SampledFor(gaps, names, prepared[j], width, ulp, numNodes, e)
  }

  lemma CollectNext(before: seq<Entry>, after: seq<Entry>, gaps: seq<Gap>, names: seq<string>, prepared: seq<GapPosition>, width: real, ulp: real, numNodes: nat, k: nat)
    requires width > 0.0 && k < |prepared|
    requires forall k :: 0 <= k < |gaps| ==> Imported(gaps[k], numNodes)
    requires forall k :: 0 <= k < |prepared| ==> prepared[k].id < |names|
    requires CollectedUpTo(before, gaps, names, prepared, width, ulp, numNodes, k)
    requires forall e :: e in after <==> (e in before || SampledFor(gaps, names, prepared[k], width, ulp, numNodes, e))
    ensures CollectedUpTo(after, gaps, names, prepared, width, ulp, numNodes, k + 1)
  {
  }

  ghost predicate IsSource(source: set<Entry>, gaps: seq<Gap>, names: seq<string>, prepared: seq<GapPosition>, width: real, ulp: real, numNodes: nat)
    requires width > 0.0
    requires forall k :: 0 <= k < |gaps| ==> Imported(gaps[k], numNodes)
    requires forall k :: 0 <= k < |prepared| ==> prepared[k].id < |names|
  {
    forall e :: e in source <==> Sampled(gaps, names, prepared, width, ulp, numNodes, e)
  }

  /** A definition: sorted, without duplicates, holding exactly the periodic closure of what the samples bring together. */
  ghost predicate IsDefinition(d: BucketDefinition, gaps: seq<Gap>, names: seq<string>, prepared: seq<GapPosition>, width: real, ulp: real,
                               pairs: seq<(int, int)>, numNodes: nat)
    requires width > 0.0
    requires forall k :: 0 <= k < |gaps| ==> Imported(gaps[k], numNodes)
    requires forall k :: 0 <= k < |prepared| ==> prepared[k].id < |names|
  {
    && d.identity == IdentityOf(prepared, width)
    && StrictlySorted(d.upperEntries)
    && exists source: set<Entry> :: IsSource(source, gaps, names, prepared, width, ulp, numNodes)
         && forall e :: e in d.upperEntries <==> InClosure(source, pairs, numNodes, e)
  }

  // ----- a cached definition is the one that would be built

  /** The same gap, repositioned in between: its rings are the same, and without rings so are its brackets. */
  ghost predicate SameTopology(g: Gap, h: Gap) {
    && g.name == h.name
    && g.totalArcLength == h.totalArcLength && g.totalArcElements == h.totalArcElements
    && g.innerRing == h.innerRing && g.outerRing == h.outerRing
    && (g.innerRing == [] || g.outerRing == [] ==> g.quadrature == h.quadrature)
  }

  lemma FindGapSame(gaps: seq<Gap>, gaps': seq<Gap>, name: string)
    requires |gaps| == |gaps'| && forall k :: 0 <= k < |gaps| ==> SameTopology(gaps[k], gaps'[k])
    ensures FindGap(gaps, name) == FindGap(gaps', name)
  {
    if gaps != [] {
      assert SameTopology(gaps[0], gaps'[0]);
      FindGapSame(gaps[1..], gaps'[1..], name);
    }
  }

  lemma SampledSame(gaps: seq<Gap>, gaps': seq<Gap>, names: seq<string>, p: GapPosition, p': GapPosition, width: real, ulp: real, numNodes: nat, e: Entry)
    requires width > 0.0 && p.id < |names| && p.id == p'.id && BucketIndex(p, width) == BucketIndex(p', width)
    requires |gaps| == |gaps'| && forall k :: 0 <= k < |gaps| ==> SameTopology(gaps[k], gaps'[k])
    requires forall k :: 0 <= k < |gaps| ==> Imported(gaps[k], numNodes) && Imported(gaps'[k], numNodes)
    ensures SampledFor(gaps, names, p, width, ulp, numNodes, e) <==> SampledFor(gaps', names, p', width, ulp, numNodes, e)
  {
    FindGapSame(gaps, gaps', names[p.id]);
    FindGapInRange(gaps, names[p.id]);
    var found := FindGap(gaps, names[p.id]);
    if found >= 0 {
      var g, h := gaps[found], gaps'[found];
      assert SameTopology(g, h);
      forall s: real ensures SampleEntries(g, s) == SampleEntries(h, s) {
      }
      assert Step(g) == Step(h);
    }
  }

  /** Two preparations with the same identity on the same topology have the same definition:
      reusing the cached one changes nothing. */
  lemma CacheIsTransparent(d: BucketDefinition, d': BucketDefinition, gaps: seq<Gap>, gaps': seq<Gap>, names: seq<string>,
                           prepared: seq<GapPosition>, prepared': seq<GapPosition>, width: real, ulp: real, pairs: seq<(int, int)>, numNodes: nat)
    requires width > 0.0
    requires |gaps| == |gaps'| && forall k :: 0 <= k < |gaps| ==> SameTopology(gaps[k], gaps'[k])
    requires forall k :: 0 <= k < |gaps| ==> Imported(gaps[k], numNodes) && Imported(gaps'[k], numNodes)
    requires forall k :: 0 <= k < |prepared| ==> prepared[k].id < |names|
    requires forall k :: 0 <= k < |prepared'| ==> prepared'[k].id < |names|
    requires IsDefinition(d, gaps, names, prepared, width, ulp, pairs, numNodes)
    requires IsDefinition(d', gaps', names, prepared', width, ulp, pairs, numNodes)
    requires d.identity == d'.identity
    ensures d == d'
  {
    var source :| IsSource(source, gaps, names, prepared, width, ulp, numNodes)
      && forall e :: e in d.upperEntries <==> InClosure(source, pairs, numNodes, e);
    var source' :| IsSource(source', gaps', names, prepared', width, ulp, numNodes)
      && forall e :: e in d'.upperEntries <==> InClosure(source', pairs, numNodes, e);
    SamePreparations(prepared, prepared', width);
    forall e ensures e in source <==> e in source' {
      forall k | 0 <= k < |prepared|
        ensures SampledFor(gaps, names, prepared[k], width, ulp, numNodes, e) <==> SampledFor(gaps', names, prepared'[k], width, ulp, numNodes, e)
      {
        SampledSame(gaps, gaps', names, prepared[k], prepared'[k], width, ulp, numNodes, e);
      }
      assert e in source <==> Sampled(gaps, names, prepared, width, ulp, numNodes, e);
      assert e in source' <==> Sampled(gaps', names, prepared', width, ulp, numNodes, e);
    }
    assert source == source';
    StrictlySortedUnique(d.upperEntries, d'.upperEntries);
  }

  lemma SamePreparations(prepared: seq<GapPosition>, prepared': seq<GapPosition>, width: real)
    requires width > 0.0 && IdentityOf(prepared, width) == IdentityOf(prepared', width)
    ensures |prepared| == |prepared'|
    ensures forall k :: 0 <= k < |prepared| ==>
      prepared[k].id == prepared'[k].id && BucketIndex(prepared[k], width) == BucketIndex(prepared'[k], width)
  {
    var i, i' := IdentityOf(prepared, width).indices, IdentityOf(prepared', width).indices;
    assert |i| == |i'|;
    forall k | 0 <= k < |prepared|
      ensures prepared[k].id == prepared'[k].id && BucketIndex(prepared[k], width) == BucketIndex(prepared'[k], width)
    {
      assert i[k] == i'[k];
    }
  }

  // ----- coverage

  lemma DegreesOrder(x: real, y: real, step: real)
    requires step > 0.0
    ensures x < y <==> Degrees(x, step) < Degrees(y, step)
  {
    if x < y { assert x * step < y * step; }
    if y < x { assert y * step < x * step; }
  }

  lemma DegreesNext(x: real, step: real)
    ensures Degrees(x + 1.0, step) == Degrees(x, step) + step
  {
  }

  lemma {:induction false} GridHas(sample: real, end: real, half: real, m: nat)
    requires half > 0.0 && sample + Degrees(m as real, half) < end
    ensures sample + Degrees(m as real, half) in GridSamples(sample, end, half)
    decreases m
  {
    if m > 0 {
      DegreesOrder(0.0, m as real, half);
      DegreesNext((m - 1) as real, half);
      GridHas(sample + half, end, half, m - 1);
    }
  }

  /** A grid of half the pitch has a point in every interval of half a pitch. */
  lemma GridPoint(begin: real, low: real, half: real) returns (m: nat)
    requires half > 0.0 && begin < low
    ensures low <= begin + Degrees(m as real, half) < low + half
  {
    var x := (low - begin) / half;
    MulDiv(low - begin, half);
    DivMonotone(0.0, low - begin, half);
    m := if x.Floor as real == x then x.Floor else x.Floor + 1;
    DegreesOrder(m as real, x, half);
    DegreesNext(x, half);
    DegreesOrder(m as real, x + 1.0, half);
  }

  /** Where the `c`-th crossing of a ring starts. */
  function CrossingStart(ring: seq<RingPoint>, step: real, c: int): real
    requires ring != []
  {
    Degrees(c as real - ring[0].position, step)
  }

  /** The angles at which exactly `c` points of a ring are past zero. */
  lemma CrossingInterval(ring: seq<RingPoint>, step: real, angle: real, c: int)
    requires ring != [] && step > 0.0
    ensures Crossings(ring, step, angle) == c <==> CrossingStart(ring, step, c) <= angle < CrossingStart(ring, step, c) + step
  {
    var u, low := angle / step, c as real - ring[0].position;
    MulDiv(angle, step);
    DegreesOrder(u, low, step);
    DegreesOrder(u, low + 1.0, step);
    DegreesNext(low, step);
  }

  /** A bucket's window starts at a whole multiple of its width, and ends one width on or with the turn;
      the bucket of a position is that of its inner angle less its outer one. */
  lemma WindowIs(p: GapPosition, index: int, width: real)
    requires width > 0.0
    ensures WindowBegin(index, width) == index as real * width
    ensures WindowEnd(index, width) <= 360.0 && WindowEnd(index, width) <= index as real * width + width
    ensures WindowEnd(index, width) == 360.0 || WindowEnd(index, width) == index as real * width + width
    ensures BucketIndex(p, width) == (CanonicalDegrees(p.innerAngle - p.outerAngle) / width).Floor
    ensures RelativeAngle(p) == CanonicalDegrees(p.innerAngle - p.outerAngle)
  {
  }

  /** The last number before the end is sampled, if there is one. */
  lemma LastNumberIsSampled(index: int, width: real, pitch: real, ulp: real)
    requires pitch > 0.0 && ulp > 0.0
    ensures WindowBegin(index, width) + ulp <= WindowEnd(index, width) ==> WindowEnd(index, width) - ulp in Samples(index, width, pitch, ulp)
    ensures WindowBegin(index, width) in Samples(index, width, pitch, ulp)
  {
    SamplesHold(index, width, pitch, ulp, WindowBegin(index, width));
    SamplesHold(index, width, pitch, ulp, NextToward(WindowEnd(index, width), WindowBegin(index, width), ulp));
  }

  /** Every angle from the window's start to one number before its end faces the rings as some sample does. */
  lemma SampleWithSameCrossings(ring: seq<RingPoint>, step: real, index: int, width: real, ulp: real, angle: real) returns (s: real)
    requires ring != [] && step > 0.0 && ulp > 0.0 && WindowBegin(index, width) <= angle
    requires angle == WindowBegin(index, width) || angle + ulp <= WindowEnd(index, width)
    ensures s in Samples(index, width, step, ulp)
    ensures Crossings(ring, step, s) == Crossings(ring, step, angle)
  {
    var begin, end := WindowBegin(index, width), WindowEnd(index, width);
    var last := end - ulp;
    var c := Crossings(ring, step, angle);
    var low := CrossingStart(ring, step, c);
    CrossingInterval(ring, step, angle, c);
    LastNumberIsSampled(index, width, step, ulp);
    if low <= begin {
      s := begin;
    } else if last < low + step {
      s := last;
    } else {
      var m := GridPoint(begin, low, HalfPitch(step));
      s := begin + Degrees(m as real, HalfPitch(step));
      assert HalfPitch(step) <= step;
      GridHas(begin, end, HalfPitch(step), m);
      SamplesHold(index, width, step, ulp, s);
    }
    CrossingInterval(ring, step, s, c);
  }

  lemma SamplesHold(index: int, width: real, pitch: real, ulp: real, s: real)
    requires pitch > 0.0
    requires var begin, end := WindowBegin(index, width), WindowEnd(index, width);
      s == begin || s == NextToward(end, begin, ulp) || s in GridSamples(begin, end, HalfPitch(pitch))
    ensures s in Samples(index, width, pitch, ulp)
  {
  }

  // ----- the samples in numbers

  /** A number just before or just after a place, within the window. */
  ghost predicate Beside(s: real, at: real, begin: real, end: real, pitch: real, ulp: real) {
    var epsilon := if pitch * 0.000000001 > 0.0000000001 then pitch * 0.000000001 else 0.0000000001;
    begin <= at < end && ((s == at - epsilon && begin <= s) || (s == at + epsilon && s + ulp <= end))
  }

  /** The `k`-th multiple of the pitch is where points come past each other. */
  ghost predicate BesideEvent(s: real, k: int, begin: real, end: real, pitch: real, ulp: real) {
    Beside(s, Degrees(k as real, pitch), begin, end, pitch, ulp)
  }

  ghost predicate OnGrid(s: real, m: int, begin: real, end: real, pitch: real) {
    m >= 0 && s == begin + Degrees(m as real, pitch * 0.5) && s < end
  }

  lemma EventStep(event: real, begin: real, end: real, pitch: real, ulp: real, s: real)
    requires pitch > 0.0 && event <= end + pitch && s != begin && s != NextToward(end, begin, ulp)
    ensures s in EventSamples(event, begin, end, NextToward(end, begin, ulp), pitch, Epsilon(pitch))
      <==> Beside(s, event, begin, end, pitch, ulp) || s in EventSamples(event + pitch, begin, end, NextToward(end, begin, ulp), pitch, Epsilon(pitch))
  {
    StepTaken(event, end + pitch, pitch);
  }

  lemma NextMultiple(k: int, step: real)
    ensures Degrees((k + 1) as real, step) == Degrees(k as real, step) + step
  {
    DegreesNext(k as real, step);
  }

  ghost predicate EventFrom(k: int, s: real, begin: real, end: real, pitch: real, ulp: real) {
    exists j :: k <= j && BesideEvent(s, j, begin, end, pitch, ulp)
  }

  lemma EventFromNext(k: int, s: real, begin: real, end: real, pitch: real, ulp: real)
    ensures EventFrom(k, s, begin, end, pitch, ulp) <==> BesideEvent(s, k, begin, end, pitch, ulp) || EventFrom(k + 1, s, begin, end, pitch, ulp)
  {
    if EventFrom(k, s, begin, end, pitch, ulp) {
      var j :| k <= j && BesideEvent(s, j, begin, end, pitch, ulp);
      assert j == k || k + 1 <= j;
    }
  }

  lemma NoEventBeyond(k: int, s: real, begin: real, end: real, pitch: real, ulp: real)
    requires pitch > 0.0 && Degrees(k as real, pitch) >= end
    ensures !EventFrom(k, s, begin, end, pitch, ulp)
  {
    forall j | k <= j ensures !BesideEvent(s, j, begin, end, pitch, ulp) {
      DegreesOrder(j as real, k as real, pitch);
    }
  }

  lemma {:induction false} EventsAre(k: int, event: real, begin: real, end: real, pitch: real, ulp: real, s: real)
    requires pitch > 0.0 && s != begin && s != NextToward(end, begin, ulp) && event == Degrees(k as real, pitch)
    ensures s in EventSamples(event, begin, end, NextToward(end, begin, ulp), pitch, Epsilon(pitch))
      <==> EventFrom(k, s, begin, end, pitch, ulp)
    decreases StepsLeft(event, end + pitch, pitch) + 1
  {
    if event > end + pitch {
      NoEventBeyond(k, s, begin, end, pitch, ulp);
    } else {
      StepTaken(event, end + pitch, pitch);
      EventStep(event, begin, end, pitch, ulp, s);
      NextMultiple(k, pitch);
      EventsAre(k + 1, event + pitch, begin, end, pitch, ulp, s);
      EventFromNext(k, s, begin, end, pitch, ulp);
    }
  }

  lemma {:induction false} GridIs(m: nat, begin: real, end: real, pitch: real, s: real)
    requires pitch > 0.0
    ensures s in GridSamples(begin + Degrees(m as real, pitch * 0.5), end, pitch * 0.5) <==> exists n :: m <= n && OnGrid(s, n, begin, end, pitch)
    decreases StepsLeft(begin + Degrees(m as real, pitch * 0.5), end, pitch * 0.5) + 1
  {
    var half := pitch * 0.5;
    var sample := begin + Degrees(m as real, half);
    if sample >= end {
      forall n | m <= n ensures !OnGrid(s, n, begin, end, pitch) {
        DegreesOrder(n as real, m as real, half);
      }
    } else {
      StepTaken(sample, end, half);
      NextMultiple(m, half);
      GridIs(m + 1, begin, end, pitch, s);
      assert s in GridSamples(sample, end, half) <==> s == sample || s in GridSamples(sample + half, end, half);
      assert s == sample <==> OnGrid(s, m, begin, end, pitch);
    }
  }

  /** No event before the first one counted is in the window. */
  lemma FirstEventIsFirst(s: real, k: int, begin: real, end: real, pitch: real, ulp: real)
    requires pitch > 0.0 && BesideEvent(s, k, begin, end, pitch, ulp)
    ensures (begin / pitch).Floor <= k
  {
    MulDiv(begin, pitch);
    DegreesOrder(k as real, begin / pitch, pitch);
  }

  /** The samples of a window are its first and last numbers, both sides of every multiple of the
      pitch as far as they are in it, and a grid of half the pitch. */
  lemma SamplesAre(index: int, width: real, pitch: real, ulp: real, s: real)
    requires pitch > 0.0
    ensures var begin, end := WindowBegin(index, width), WindowEnd(index, width);
      s in Samples(index, width, pitch, ulp) <==>
        || s == begin || (s == end - ulp && begin <= s)
        || (exists k :: BesideEvent(s, k, begin, end, pitch, ulp))
        || (exists m :: OnGrid(s, m, begin, end, pitch))
  {
    var begin, end := WindowBegin(index, width), WindowEnd(index, width);
    var first := (begin / pitch).Floor;
    if s != begin && s != NextToward(end, begin, ulp) {
      EventsAre(first, Degrees(first as real, pitch), begin, end, pitch, ulp, s);
    }
    assert FirstEvent(begin, pitch) == Degrees(first as real, pitch);
    forall k | BesideEvent(s, k, begin, end, pitch, ulp) ensures first <= k {
      FirstEventIsFirst(s, k, begin, end, pitch, ulp);
    }
    assert Degrees(0 as real, HalfPitch(pitch)) == 0.0;
    GridIs(0, begin, end, pitch, s);
  }

  ghost predicate EvenGap(g: Gap) {
    && Positionable(g) && g.totalArcLength > 0.0 && g.totalArcElements > 0
    && Uniform(g.innerRing, Step(g)) && Uniform(g.outerRing, Step(g)) && |g.innerRing| == |g.outerRing|
    && NodePeriodic(g.innerRing, g.totalArcElements) && NodePeriodic(g.outerRing, g.totalArcElements)
  }

  /** An evenly spaced gap at a relative angle of the window, its outer ring unturned, needs
      only entries that some sample has. */
  lemma WindowIsCovered(g: Gap, index: int, width: real, ulp: real, numNodes: nat, angle: real, e: Entry)
    requires Imported(g, numNodes) && Uniform(g.innerRing, Step(g)) && |g.innerRing| == |g.outerRing|
    requires ulp > 0.0 && WindowBegin(index, width) <= angle
    requires angle == WindowBegin(index, width) || angle + ulp <= WindowEnd(index, width)
    requires e in SampleEntries(g, angle)
    ensures SampledGap(g, index, width, ulp, numNodes, e)
  {
    var s := SampleWithSameCrossings(g.innerRing, Step(g), index, width, ulp, angle);
    SameCrossingsSameBrackets(g.innerRing, g.outerRing, Step(g), angle, s, 0.0, g.totalArcElements);
    assert PositionedGap(g, angle, 0.0).value.quadrature == PositionedGap(g, s, 0.0).value.quadrature;
    assert e in SampleEntries(g, s);
  }

  /** The same when both rings have turned, if they turned past the same number of points. */
  lemma TurnedWindowIsCovered(g: Gap, index: int, width: real, ulp: real, numNodes: nat, inner: real, outer: real, e: Entry)
    requires Imported(g, numNodes) && EvenGap(g)
    requires var angle := CanonicalDegrees(inner - outer);
      && ulp > 0.0 && WindowBegin(index, width) <= angle
      && (angle == WindowBegin(index, width) || angle + ulp <= WindowEnd(index, width))
      && (RelativeCrossings(g.innerRing, g.outerRing, Step(g), angle, 0.0)
          - RelativeCrossings(g.innerRing, g.outerRing, Step(g), inner, outer)) % |g.innerRing| == 0
    requires PositionedGap(g, inner, outer).Done?
    requires e in Structure(PositionedGap(g, inner, outer).value.quadrature, g.totalArcElements)
    ensures SampledGap(g, index, width, ulp, numNodes, e)
  {
    var angle := CanonicalDegrees(inner - outer);
    SameRelativeCrossings(g.innerRing, g.outerRing, Step(g), inner, outer, angle, 0.0, g.totalArcElements);
    assert e in PlacedStructure(g.innerRing, g.outerRing, Step(g), inner, outer, g.totalArcElements);
    WindowIsCovered(g, index, width, ulp, numNodes, angle, e);
  }

  /** Turning the outer ring by whole elements always keeps the relative crossings. */
  lemma WholeElementsKeepCrossings(g: Gap, inner: real, elements: int)
    requires EvenGap(g)
    ensures var outer := Arc(elements, Step(g));
      (RelativeCrossings(g.innerRing, g.outerRing, Step(g), CanonicalDegrees(inner - outer), 0.0)
       - RelativeCrossings(g.innerRing, g.outerRing, Step(g), inner, outer)) % |g.innerRing| == 0
  {
    var step := Step(g);
    var outer := Arc(elements, step);
    var n := |g.innerRing|;
    var turns := Turns(inner - outer);
    CrossingsOfElements(g.outerRing, step, 0.0, elements);
    assert 0.0 + outer == outer;
    CrossingsOfElements(g.innerRing, step, inner, -elements);
    ArcSum(elements, -elements, step);
    assert inner + Arc(-elements, step) == inner - outer;
    CrossingsOfWholeTurns(g.innerRing, step, inner - outer, -turns);
    ModUnique(-turns * n, n, -turns, 0);
  }

  /** The window of a bucket is never empty, and the angle that chose it lies in it. */
  lemma WindowHoldsItsAngle(p: GapPosition, width: real)
    requires width > 0.0
    ensures var index := BucketIndex(p, width);
      0.0 <= WindowBegin(index, width) <= RelativeAngle(p) < WindowEnd(index, width) <= FULL_TURN
  {
    var relative := RelativeAngle(p);
    var x := relative / width;
    var index := BucketIndex(p, width);
    MulDiv(relative, width);
    DivMonotone(0.0, relative, width);
    DegreesOrder(x, index as real, width);
    DegreesNext(index as real, width);
    DegreesOrder(x, index as real + 1.0, width);
    DegreesOrder(index as real, 0.0, width);
    assert Degrees(0.0, width) == 0.0;
    assert WindowBegin(index, width) == Degrees(index as real, width);
  }

  lemma SampledIsDefined(d: BucketDefinition, gaps: seq<Gap>, names: seq<string>, prepared: seq<GapPosition>, width: real, ulp: real,
                         pairs: seq<(int, int)>, numNodes: nat, k: nat, e: Entry)
    requires width > 0.0
    requires forall j :: 0 <= j < |gaps| ==> Imported(gaps[j], numNodes)
    requires forall j :: 0 <= j < |prepared| ==> prepared[j].id < |names|
    requires IsDefinition(d, gaps, names, prepared, width, ulp, pairs, numNodes)
    requires k < |prepared| && SampledFor(gaps, names, prepared[k], width, ulp, numNodes, e)
    ensures e in d.upperEntries
  {
    assert Sampled(gaps, names, prepared, width, ulp, numNodes, e);
    var source :| IsSource(source, gaps, names, prepared, width, ulp, numNodes)
      && forall x :: x in d.upperEntries <==> InClosure(source, pairs, numNodes, x);
    assert e in source;
  }

  /** The stored pattern of a bucket holds every entry that any relative angle of the bucket needs,
      from the bucket's start to one number before its end. */
  lemma DefinitionCoversBucket(d: BucketDefinition, gaps: seq<Gap>, names: seq<string>, prepared: seq<GapPosition>, width: real, ulp: real,
                               pairs: seq<(int, int)>, numNodes: nat, k: nat, found: nat, angle: real, e: Entry)
    requires width > 0.0 && ulp > 0.0
    requires forall j :: 0 <= j < |gaps| ==> Imported(gaps[j], numNodes)
    requires forall j :: 0 <= j < |prepared| ==> prepared[j].id < |names|
    requires IsDefinition(d, gaps, names, prepared, width, ulp, pairs, numNodes)
    requires k < |prepared| && found < |gaps| && FindGap(gaps, names[prepared[k].id]) == found
    requires Uniform(gaps[found].innerRing, Step(gaps[found])) && |gaps[found].innerRing| == |gaps[found].outerRing|
    requires var index := BucketIndex(prepared[k], width);
      && WindowBegin(index, width) <= angle
      && (angle == WindowBegin(index, width) || angle + ulp <= WindowEnd(index, width))
    requires e in SampleEntries(gaps[found], angle)
    ensures e in d.upperEntries
  {
    WindowHoldsItsAngle(prepared[k], width);
    WindowIsCovered(gaps[found], BucketIndex(prepared[k], width), width, ulp, numNodes, angle, e);
    SampledIsDefined(d, gaps, names, prepared, width, ulp, pairs, numNodes, k, e);
  }

  lemma {:induction false} PlacementIsSampled(g: Gap, p: GapPosition, width: real, ulp: real, numNodes: nat, elements: int, e: Entry)
    requires width > 0.0 && ulp > 0.0
    requires Imported(g, numNodes) && EvenGap(g) && p.outerAngle == Arc(elements, Step(g))
    requires var relative, index := RelativeAngle(p), BucketIndex(p, width);
      relative == WindowBegin(index, width) || relative + ulp <= WindowEnd(index, width)
    requires PositionedGap(g, p.innerAngle, p.outerAngle).Done?
    requires e in Structure(PositionedGap(g, p.innerAngle, p.outerAngle).value.quadrature, g.totalArcElements)
    ensures SampledGap(g, BucketIndex(p, width), width, ulp, numNodes, e)
  {
    WindowHoldsItsAngle(p, width);
    WholeElementsKeepCrossings(g, p.innerAngle, elements);
    TurnedWindowIsCovered(g, BucketIndex(p, width), width, ulp, numNodes, p.innerAngle, p.outerAngle, e);
  }

  /** So the pattern holds what the current placement of an evenly spaced gap needs, whenever its
      outer ring has turned by whole elements and its relative angle is at least one number before the
      end of its bucket. */
  lemma DefinitionCoversPlacement(d: BucketDefinition, gaps: seq<Gap>, names: seq<string>, prepared: seq<GapPosition>, width: real, ulp: real,
                                  pairs: seq<(int, int)>, numNodes: nat, k: nat, found: nat, elements: int, e: Entry)
    requires width > 0.0 && ulp > 0.0
    requires forall j :: 0 <= j < |gaps| ==> Imported(gaps[j], numNodes)
    requires forall j :: 0 <= j < |prepared| ==> prepared[j].id < |names|
    requires IsDefinition(d, gaps, names, prepared, width, ulp, pairs, numNodes)
    requires k < |prepared| && found < |gaps| && FindGap(gaps, names[prepared[k].id]) == found
    requires EvenGap(gaps[found]) && prepared[k].outerAngle == Arc(elements, Step(gaps[found]))
    requires var relative, index := RelativeAngle(prepared[k]), BucketIndex(prepared[k], width);
      relative == WindowBegin(index, width) || relative + ulp <= WindowEnd(index, width)
    requires PositionedGap(gaps[found], prepared[k].innerAngle, prepared[k].outerAngle).Done?
    requires e in Structure(PositionedGap(gaps[found], prepared[k].innerAngle, prepared[k].outerAngle).value.quadrature, gaps[found].totalArcElements)
    ensures e in d.upperEntries
  {
    PlacementIsSampled(gaps[found], prepared[k], width, ulp, numNodes, elements, e);
    assert SampledFor(gaps, names, prepared[k], width, ulp, numNodes, e);
    SampledIsDefined(d, gaps, names, prepared, width, ulp, pairs, numNodes, k, e);
  }
}
