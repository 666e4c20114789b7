/** Ingestion of an OpenStreetMap extract (converter/src/reader/mod.rs,
    `read_osm_pbf`): one pass over the decoded elements that builds the node
    table, the running global extent and the list of accepted ways, then a
    deferred pass that resolves every way's node references into points. */
module Reader {
  import opened RustPrim
  import opened ReaderData

  type Tags = seq<(string, string)>

  /** One element as the PBF reader hands it to the callback. */
  datatype Element =
    | WayElement(id: i64, refs: seq<i64>, tags: Tags)
    | NodeElement(id: i64, lat: real, lon: real)
    | DenseNodeElement(id: i64, lat: real, lon: real)
    | RelationElement

  /** What opening and decoding the extract yields: it cannot be opened, the
      decoder fails after delivering some elements, or it delivers them all. */
  datatype Extract =
    | Unopenable
    | Corrupt(delivered: seq<Element>)
    | Complete(elements: seq<Element>)

  datatype ReadError = OpenFailed | DecodeFailed | NoNodes

  /** `str::parse::<f32>`, left abstract: `None` when the string is rejected. */
  type FloatParser = string -> Option<F32>

  function DropLast<T>(s: seq<T>): seq<T>
    requires |s| > 0
  {
    s[..|s| - 1]
  }

  function Last<T>(s: seq<T>): T
    requires |s| > 0
  {
    s[|s| - 1]
  }

  // ---------------------------------------------------------------------
  // Tags and per-way attributes

  /** The way's tags collected into a `HashMap` (a later pair with the same
      key replaces an earlier one). */
  function TagMap(tags: Tags): map<string, string>
  {
    if tags == [] then map[] else TagMap(DropLast(tags))[Last(tags).0 := Last(tags).1]
  }

  ghost predicate HasKey(tags: Tags, k: string) {
    exists i :: 0 <= i < |tags| && tags[i].0 == k
  }

  lemma {:induction false} TagMapContents(tags: Tags)
    ensures forall k :: k in TagMap(tags) <==> HasKey(tags, k)
    ensures forall k :: k in TagMap(tags) ==> exists i :: 0 <= i < |tags| && tags[i] == (k, TagMap(tags)[k])
  {
    if tags != [] {
      var p := DropLast(tags);
      TagMapContents(p);
      forall k ensures k in TagMap(tags) <==> HasKey(tags, k) {
        if HasKey(tags, k) && k != Last(tags).0 {
          var i :| 0 <= i < |tags| && tags[i].0 == k;
          assert p[i].0 == k;
        }
        if k in TagMap(p) {
          var i :| 0 <= i < |p| && p[i].0 == k;
          assert tags[i].0 == k;
        }
      }
      forall k | k in TagMap(tags)
        ensures exists i :: 0 <= i < |tags| && tags[i] == (k, TagMap(tags)[k])
      {
        if k == Last(tags).0 {
          assert tags[|tags| - 1] == (k, TagMap(tags)[k]);
        } else {
          var i :| 0 <= i < |p| && p[i] == (k, TagMap(p)[k]);
          assert tags[i] == (k, TagMap(tags)[k]);
        }
      }
    }
  }

  /** `HashMap::get` on the collected tags. */
  function Get(m: map<string, string>, k: string): Option<string> {
    if k in m then Some(m[k]) else None
  }

  /** The access filter: a way is closed to cars only when `motorcar` or
      `motor_vehicle` is exactly "no". */
  predicate CarAllowed(m: map<string, string>) {
    !(Get(m, "motorcar") == Some("no") || Get(m, "motor_vehicle") == Some("no"))
  }

  predicate EndsWith(s: string, suffix: string) {
    |suffix| <= |s| && s[|s| - |suffix|..] == suffix
  }

  /** The `width` tag in metres, the three suffix arms tried in source order;
      absent or rejected values give 1.0. */
  function ParseWidth(parse: FloatParser, tag: Option<string>): F32 {
    match tag
    case None => Num(1.0)
    case Some(s) =>
      var parsed :=
        if EndsWith(s, "m") then parse(s[..|s| - 1])
        else if EndsWith(s, "cm") then
          match parse(s[..|s| - 2])
          case Some(n) => Some(F32Scale(n, 100.0))
          case None => None
        else parse(s);
      parsed.GetOr(Num(1.0))
  }

  /** The `speedlimit` tag, parsed as a float and cast with `as u8`; absent or
      rejected values give 0. */
  function ParseSpeedlimit(parse: FloatParser, tag: Option<string>): u8 {
    var parsed := match tag
      case Some(s) => parse(s)
      case None => None;
    F32AsU8(parsed.GetOr(Num(0.0)))
  }

  lemma CentimetreIsMetreSuffix(s: string)
    requires EndsWith(s, "cm")
    ensures EndsWith(s, "m")
  {
    assert s[|s| - 1..] == s[|s| - 2..][1..];
  }

  lemma WidthAbsent(parse: FloatParser)
    ensures ParseWidth(parse, None) == Num(1.0)
  {
  }

  /** A value without a unit suffix is the parsed number, or 1.0 if rejected. */
  lemma WidthBare(parse: FloatParser, s: string)
    requires !EndsWith(s, "m")
    ensures ParseWidth(parse, Some(s)) == parse(s).GetOr(Num(1.0))
  {
    if EndsWith(s, "cm") {
      CentimetreIsMetreSuffix(s);
    }
  }

  /** Every value ending in "m", and so every value ending in "cm", is parsed
      with its last character dropped: the `* 100.0` arm is never taken. */
  lemma WidthMetreSuffix(parse: FloatParser, s: string)
    requires EndsWith(s, "m") || EndsWith(s, "cm")
    ensures ParseWidth(parse, Some(s)) == parse(s[..|s| - 1]).GetOr(Num(1.0))
  {
    if EndsWith(s, "cm") {
      CentimetreIsMetreSuffix(s);
    }
  }

  lemma Width3m(parse: FloatParser)
    requires parse("3") == Some(Num(3.0))
    ensures ParseWidth(parse, Some("3m")) == Num(3.0)
  {
    assert EndsWith("3m", "m");
    assert "3m"[..1] == "3";
  }

  /** "250cm" is parsed as "250c", which `f32` parsing rejects, so the width
      falls back to 1.0 instead of 2.5. */
  lemma Width250cm(parse: FloatParser)
    requires parse("250c") == None
    ensures ParseWidth(parse, Some("250cm")) == Num(1.0)
  {
    assert EndsWith("250cm", "m");
    assert "250cm"[..4] == "250c";
  }

  lemma SpeedlimitSpec(parse: FloatParser, tag: Option<string>)
    ensures tag.None? ==> ParseSpeedlimit(parse, tag) == 0
    ensures tag.Some? && parse(tag.value).None? ==> ParseSpeedlimit(parse, tag) == 0
    ensures tag.Some? && parse(tag.value) == Some(NaN) ==> ParseSpeedlimit(parse, tag) == 0
    ensures tag.Some? && parse(tag.value).Some? && parse(tag.value).value.Num? ==>
      var v := parse(tag.value).value.value;
      var r := ParseSpeedlimit(parse, tag);
      (v < 1.0 ==> r == 0) && (v >= 255.0 ==> r == 255) &&
      (0.0 <= v < 256.0 ==> r as real <= v < r as real + 1.0)
  {
  }

  lemma Speedlimit50(parse: FloatParser)
    requires parse("50") == Some(Num(50.0)) && parse("100.0") == Some(Num(100.0))
    ensures ParseSpeedlimit(parse, Some("50")) == 50
    ensures ParseSpeedlimit(parse, Some("100.0")) == 100
  {
  }

  /** The way callback's filter and record: `Some` exactly for a way with a
      `highway` tag that is not closed to cars. */
  function AcceptWay(parse: FloatParser, id: i64, refs: seq<i64>, tags: Tags): Option<RoadRaw> {
    var m := TagMap(tags);
    if "highway" in m && CarAllowed(m) then
      Some(RoadRaw(id, refs, m["highway"], ParseWidth(parse, Get(m, "width")),
                   ParseSpeedlimit(parse, Get(m, "speedlimit"))))
    else None
  }

  lemma AcceptWaySpec(parse: FloatParser, id: i64, refs: seq<i64>, tags: Tags)
    ensures var m := TagMap(tags);
      AcceptWay(parse, id, refs, tags).Some? <==>
        HasKey(tags, "highway") && Get(m, "motorcar") != Some("no") && Get(m, "motor_vehicle") != Some("no")
    ensures var r := AcceptWay(parse, id, refs, tags);
      r.Some? ==> r.value.id == id && r.value.nodes == refs && r.value.kind == TagMap(tags)["highway"]
  {
    TagMapContents(tags);
  }

  lemma AccessTagExamples(parse: FloatParser, id: i64, refs: seq<i64>)
    ensures AcceptWay(parse, id, refs, [("highway", "residential"), ("motorcar", "no")]).None?
    ensures AcceptWay(parse, id, refs, [("highway", "residential")]).Some?
  {
    var t1 := [("highway", "residential"), ("motorcar", "no")];
    assert DropLast(t1) == [("highway", "residential")];
    assert DropLast(DropLast(t1)) == [];
    assert TagMap(t1) == map["highway" := "residential", "motorcar" := "no"];
    var t2 := [("highway", "residential")];
    assert DropLast(t2) == [];
    assert TagMap(t2) == map["highway" := "residential"];
  }

  // ---------------------------------------------------------------------
  // The element fold

  /** The variables the element callback updates. */
  datatype FoldState = FoldState(
    nodes: map<i64, Node>,
    dataRoads: seq<RoadRaw>,
    coordMin: Option<Coord>,
    coordMax: Option<Coord>)

  const InitState := FoldState(map[], [], None, None)

  function NodeOf(e: Element): Option<Node> {
    match e
    case NodeElement(id, lat, lon) => Some(Node(id, Coord(lat, lon)))
    case DenseNodeElement(id, lat, lon) => Some(Node(id, Coord(lat, lon)))
    case _ => None
  }

  predicate NodeWithId(e: Element, id: i64) {
    NodeOf(e).Some? && NodeOf(e).value.id == id
  }

  /** The effect of the callback on one element. */
  function Step(parse: FloatParser, s: FoldState, e: Element): FoldState {
    match e
    case WayElement(id, refs, tags) =>
      (match AcceptWay(parse, id, refs, tags)
       case Some(r) => s.(dataRoads := s.dataRoads + [r])
       case None => s)
    case RelationElement => s
    case _ =>
      var n := NodeOf(e).value;
      s.(coordMin := Some(match s.coordMin case Some(o) => o.MinEach(n.coord) case None => n.coord),
         coordMax := Some(match s.coordMax case Some(o) => o.MaxEach(n.coord) case None => n.coord),
         nodes := s.nodes[n.id := n])
  }

  /** The state after the callback has seen every element of `es`. */
  function Fold(parse: FloatParser, es: seq<Element>): FoldState {
    if es == [] then InitState else Step(parse, Fold(parse, DropLast(es)), Last(es))
  }

  ghost predicate HasNode(es: seq<Element>) {
    exists i :: 0 <= i < |es| && NodeOf(es[i]).Some?
  }

  /** Some node of `es` has latitude `v`. */
  ghost predicate LatOfNode(v: real, es: seq<Element>) {
    exists i :: 0 <= i < |es| && NodeOf(es[i]).Some? && NodeOf(es[i]).value.coord.lat == v
  }

  /** Some node of `es` has longitude `v`. */
  ghost predicate LonOfNode(v: real, es: seq<Element>) {
    exists i :: 0 <= i < |es| && NodeOf(es[i]).Some? && NodeOf(es[i]).value.coord.lon == v
  }

  /** `lo` is the componentwise minimum of the node coordinates in `es`. */
  ghost predicate IsMinExtent(lo: Coord, es: seq<Element>) {
    && (forall i :: 0 <= i < |es| && NodeOf(es[i]).Some? ==> Le(lo, NodeOf(es[i]).value.coord))
    && LatOfNode(lo.lat, es) && LonOfNode(lo.lon, es)
  }

  /** `hi` is the componentwise maximum of the node coordinates in `es`. */
  ghost predicate IsMaxExtent(hi: Coord, es: seq<Element>) {
    && (forall i :: 0 <= i < |es| && NodeOf(es[i]).Some? ==> Le(NodeOf(es[i]).value.coord, hi))
    && LatOfNode(hi.lat, es) && LonOfNode(hi.lon, es)
  }

  /** What holds of the nodes of a prefix holds of them in the whole stream. */
  lemma NodesOfPrefix(es: seq<Element>)
    requires es != []
    ensures HasNode(DropLast(es)) ==> HasNode(es)
    ensures !HasNode(es) ==> forall i :: 0 <= i < |es| ==> NodeOf(es[i]).None?
    ensures forall v :: LatOfNode(v, DropLast(es)) ==> LatOfNode(v, es)
    ensures forall v :: LonOfNode(v, DropLast(es)) ==> LonOfNode(v, es)
    ensures NodeOf(Last(es)).Some? ==> LatOfNode(NodeOf(Last(es)).value.coord.lat, es) && LonOfNode(NodeOf(Last(es)).value.coord.lon, es)
    ensures NodeOf(Last(es)).None? ==> (HasNode(es) <==> HasNode(DropLast(es)))
  {
    var p := DropLast(es);
    assert forall i :: 0 <= i < |p| ==> es[i] == p[i];
    if HasNode(p) {
      var i :| 0 <= i < |p| && NodeOf(p[i]).Some?;
      assert NodeOf(es[i]).Some?;
    }
    forall v | LatOfNode(v, p) ensures LatOfNode(v, es) {
      var i :| 0 <= i < |p| && NodeOf(p[i]).Some? && NodeOf(p[i]).value.coord.lat == v;
      assert NodeOf(es[i]) == NodeOf(p[i]);
    }
    forall v | LonOfNode(v, p) ensures LonOfNode(v, es) {
      var i :| 0 <= i < |p| && NodeOf(p[i]).Some? && NodeOf(p[i]).value.coord.lon == v;
      assert NodeOf(es[i]) == NodeOf(p[i]);
    }
    assert es[|es| - 1] == Last(es);
    if NodeOf(Last(es)).None? && HasNode(es) {
      var i :| 0 <= i < |es| && NodeOf(es[i]).Some?;
      assert i < |p| && NodeOf(p[i]).Some?;
    }
  }

  /** The global minimum stays `None` until the first node and is then the
      exact componentwise minimum of every node delivered. */
  lemma {:induction false} FoldExtentMin(parse: FloatParser, es: seq<Element>)
    ensures Fold(parse, es).coordMin.Some? <==> HasNode(es)
    ensures Fold(parse, es).coordMin.Some? ==> IsMinExtent(Fold(parse, es).coordMin.value, es)
  {
    if es != [] {
      var p := DropLast(es);
      FoldExtentMin(parse, p);
      NodesOfPrefix(es);
      var prev := Fold(parse, p).coordMin;
      var cur := Fold(parse, es).coordMin;
      assert forall i :: 0 <= i < |p| ==> es[i] == p[i];
      if NodeOf(Last(es)).Some? {
        var c := NodeOf(Last(es)).value.coord;
        var lo := cur.value;
        assert NodeOf(es[|es| - 1]) == NodeOf(Last(es));
        if prev.None? {
          assert lo == c;
        } else {
          assert lo == prev.value.MinEach(c);
          assert LatOfNode(lo.lat, es) && LonOfNode(lo.lon, es);
        }
      }
    }
  }

  /** The global maximum stays `None` until the first node and is then the
      exact componentwise maximum of every node delivered. */
  lemma {:induction false} FoldExtentMax(parse: FloatParser, es: seq<Element>)
    ensures Fold(parse, es).coordMax.Some? <==> HasNode(es)
    ensures Fold(parse, es).coordMax.Some? ==> IsMaxExtent(Fold(parse, es).coordMax.value, es)
  {
    if es != [] {
      var p := DropLast(es);
      FoldExtentMax(parse, p);
      NodesOfPrefix(es);
      var prev := Fold(parse, p).coordMax;
      var cur := Fold(parse, es).coordMax;
      assert forall i :: 0 <= i < |p| ==> es[i] == p[i];
      if NodeOf(Last(es)).Some? {
        var c := NodeOf(Last(es)).value.coord;
        var hi := cur.value;
        assert NodeOf(es[|es| - 1]) == NodeOf(Last(es));
        if prev.None? {
          assert hi == c;
        } else {
          assert hi == prev.value.MaxEach(c);
          assert LatOfNode(hi.lat, es) && LonOfNode(hi.lon, es);
        }
      }
    }
  }

  /** The node table holds exactly the ids of the delivered nodes, each entry
      under its own id. */
  lemma {:induction false} NodeTableDomain(parse: FloatParser, es: seq<Element>)
    ensures forall id :: id in Fold(parse, es).nodes <==> exists i :: 0 <= i < |es| && NodeWithId(es[i], id)
    ensures forall id :: id in Fold(parse, es).nodes ==> Fold(parse, es).nodes[id].id == id
  {
    if es != [] {
      var p := DropLast(es);
      NodeTableDomain(parse, p);
      forall id ensures id in Fold(parse, es).nodes <==> exists i :: 0 <= i < |es| && NodeWithId(es[i], id) {
        if id in Fold(parse, p).nodes {
          var i :| 0 <= i < |p| && NodeWithId(p[i], id);
          assert NodeWithId(es[i], id);
        }
        if exists i :: 0 <= i < |es| && NodeWithId(es[i], id) {
          var i :| 0 <= i < |es| && NodeWithId(es[i], id);
          if i < |p| {
            assert NodeWithId(p[i], id);
          }
        }
      }
    }
  }

  /** An insert overwrites: the table maps each id to its last node element. */
  lemma {:induction false} NodeTableLastWins(parse: FloatParser, es: seq<Element>, i: nat)
    requires i < |es| && NodeOf(es[i]).Some?
    requires forall j :: i < j < |es| ==> !NodeWithId(es[j], NodeOf(es[i]).value.id)
    ensures NodeOf(es[i]).value.id in Fold(parse, es).nodes
    ensures Fold(parse, es).nodes[NodeOf(es[i]).value.id] == NodeOf(es[i]).value
  {
    var p := DropLast(es);
    if i < |es| - 1 {
      assert p[i] == es[i];
      NodeTableLastWins(parse, p, i);
    }
  }

  /** Accepted ways are recorded in stream order: the list of an extract split
      in two is the concatenation of the lists of its parts. */
  lemma {:induction false} DataRoadsAppend(parse: FloatParser, a: seq<Element>, b: seq<Element>)
    ensures Fold(parse, a + b).dataRoads == Fold(parse, a).dataRoads + Fold(parse, b).dataRoads
    decreases |b|
  {
    if b == [] {
      assert a + b == a;
    } else {
      assert DropLast(a + b) == a + DropLast(b);
      assert Last(a + b) == Last(b);
      DataRoadsAppend(parse, a, DropLast(b));
    }
  }

  /** A single element contributes its way's record, if accepted, and nothing else. */
  lemma DataRoadsOfElement(parse: FloatParser, e: Element)
    ensures Fold(parse, [e]).dataRoads ==
      if e.WayElement? && AcceptWay(parse, e.id, e.refs, e.tags).Some?
      then [AcceptWay(parse, e.id, e.refs, e.tags).value] else []
  {
    assert DropLast([e]) == [];
  }

  /** Equal states stay equal when the same elements follow. */
  lemma {:induction false} FoldCongruent(parse: FloatParser, a: seq<Element>, b: seq<Element>, c: seq<Element>)
    requires Fold(parse, a) == Fold(parse, b)
    ensures Fold(parse, a + c) == Fold(parse, b + c)
    decreases |c|
  {
    if c == [] {
      assert a + c == a && b + c == b;
    } else {
      assert DropLast(a + c) == a + DropLast(c) && Last(a + c) == Last(c);
      assert DropLast(b + c) == b + DropLast(c) && Last(b + c) == Last(c);
      FoldCongruent(parse, a, b, DropLast(c));
    }
  }

  /** A way and a node that arrive next to each other may arrive in either
      order: the fold ends in the same state. */
  lemma FoldSwapWayNode(parse: FloatParser, pre: seq<Element>, w: Element, n: Element, post: seq<Element>)
    requires w.WayElement? && NodeOf(n).Some?
    ensures Fold(parse, pre + [w, n] + post) == Fold(parse, pre + [n, w] + post)
  {
    var a := pre + [w, n];
    var b := pre + [n, w];
    assert DropLast(a) == pre + [w] && Last(a) == n && DropLast(pre + [w]) == pre;
    assert DropLast(b) == pre + [n] && Last(b) == w && DropLast(pre + [n]) == pre;
    FoldCongruent(parse, a, b, post);
  }

  // ---------------------------------------------------------------------
  // Deferred resolution

  /** The coordinates of the referenced ids, in reference order, skipping ids
      the final node table does not hold. */
  function ResolvePoints(refs: seq<i64>, nodes: map<i64, Node>): (pts: seq<Coord>)
    ensures |pts| <= |refs|
  {
    if refs == [] then []
    else
      var prev := ResolvePoints(DropLast(refs), nodes);
      if Last(refs) in nodes then prev + [nodes[Last(refs)].coord] else prev
  }

  /** `c` is the coordinate of one of the ids in `refs` that the table holds. */
  ghost predicate CoordOfRef(c: Coord, refs: seq<i64>, nodes: map<i64, Node>) {
    exists j :: 0 <= j < |refs| && refs[j] in nodes && nodes[refs[j]].coord == c
  }

  /** Every point is the coordinate of one of the referenced ids. */
  lemma {:induction false} ResolvePointsFromRefs(refs: seq<i64>, nodes: map<i64, Node>)
    ensures forall k :: 0 <= k < |ResolvePoints(refs, nodes)| ==> CoordOfRef(ResolvePoints(refs, nodes)[k], refs, nodes)
  {
    if refs != [] {
      var p := DropLast(refs);
      ResolvePointsFromRefs(p, nodes);
      var prev := ResolvePoints(p, nodes);
      var pts := ResolvePoints(refs, nodes);
      forall k | 0 <= k < |pts| ensures CoordOfRef(pts[k], refs, nodes) {
        if k < |prev| {
          assert pts[k] == prev[k];
          assert CoordOfRef(prev[k], p, nodes);
          var w :| 0 <= w < |p| && p[w] in nodes && nodes[p[w]].coord == prev[k];
          assert refs[w] == p[w];
        } else {
          var w := |refs| - 1;
          assert refs[w] in nodes && nodes[refs[w]].coord == pts[k];
        }
      }
    }
  }

  lemma {:induction false} ResolvePointsAppend(a: seq<i64>, b: seq<i64>, nodes: map<i64, Node>)
    ensures ResolvePoints(a + b, nodes) == ResolvePoints(a, nodes) + ResolvePoints(b, nodes)
    decreases |b|
  {
    if b == [] {
      assert a + b == a;
    } else {
      assert DropLast(a + b) == a + DropLast(b) && Last(a + b) == Last(b);
      ResolvePointsAppend(a, DropLast(b), nodes);
    }
  }

  /** A reference to an id the table does not hold is skipped. */
  lemma SkipsMissing(a: seq<i64>, id: i64, b: seq<i64>, nodes: map<i64, Node>)
    requires id !in nodes
    ensures ResolvePoints(a + [id] + b, nodes) == ResolvePoints(a + b, nodes)
  {
    ResolvePointsAppend(a + [id], b, nodes);
    ResolvePointsAppend(a, [id], nodes);
    ResolvePointsAppend(a, b, nodes);
    assert DropLast([id]) == [];
  }

  /** When every id is present, point k is the coordinate of reference k. */
  lemma {:induction false} ResolvePointsAllPresent(refs: seq<i64>, nodes: map<i64, Node>)
    requires forall j :: 0 <= j < |refs| ==> refs[j] in nodes
    ensures |ResolvePoints(refs, nodes)| == |refs|
    ensures forall k :: 0 <= k < |refs| ==> ResolvePoints(refs, nodes)[k] == nodes[refs[k]].coord
  {
    if refs != [] {
      var p := DropLast(refs);
      assert forall j :: 0 <= j < |p| ==> p[j] == refs[j];
      ResolvePointsAllPresent(p, nodes);
      var pts := ResolvePoints(refs, nodes);
      assert pts == ResolvePoints(p, nodes) + [nodes[Last(refs)].coord];
      forall k | 0 <= k < |refs| ensures pts[k] == nodes[refs[k]].coord {
        if k < |p| {
          assert pts[k] == ResolvePoints(p, nodes)[k];
        }
      }
    }
  }

  /** The running minimum of the road loop, started at `first`. */
  function SeqMin(first: Coord, ps: seq<Coord>): Coord {
    if ps == [] then first else SeqMin(first, DropLast(ps)).MinEach(Last(ps))
  }

  /** The running maximum of the road loop, started at `first`. */
  function SeqMax(first: Coord, ps: seq<Coord>): Coord {
    if ps == [] then first else SeqMax(first, DropLast(ps)).MaxEach(Last(ps))
  }

  /** Over a non-empty list started at its own first point, the loop finds a
      box that holds every point and whose four sides each touch a point. */
  lemma {:induction false} SeqExtent(first: Coord, ps: seq<Coord>)
    ensures forall k :: 0 <= k < |ps| ==> Le(SeqMin(first, ps), ps[k]) && Le(ps[k], SeqMax(first, ps))
    ensures Le(SeqMin(first, ps), first) && Le(first, SeqMax(first, ps))
    ensures SeqMin(first, ps).lat == first.lat || exists k :: 0 <= k < |ps| && ps[k].lat == SeqMin(first, ps).lat
    ensures SeqMin(first, ps).lon == first.lon || exists k :: 0 <= k < |ps| && ps[k].lon == SeqMin(first, ps).lon
    ensures SeqMax(first, ps).lat == first.lat || exists k :: 0 <= k < |ps| && ps[k].lat == SeqMax(first, ps).lat
    ensures SeqMax(first, ps).lon == first.lon || exists k :: 0 <= k < |ps| && ps[k].lon == SeqMax(first, ps).lon
  {
    if ps != [] {
      var p := DropLast(ps);
      SeqExtent(first, p);
      assert forall k :: 0 <= k < |p| ==> ps[k] == p[k];
      var lo, hi := SeqMin(first, ps), SeqMax(first, ps);
      var lo0, hi0 := SeqMin(first, p), SeqMax(first, p);
      if lo.lat != Last(ps).lat && lo.lat != first.lat {
        var k :| 0 <= k < |p| && p[k].lat == lo0.lat;
        assert ps[k].lat == lo.lat;
      }
      if lo.lon != Last(ps).lon && lo.lon != first.lon {
        var k :| 0 <= k < |p| && p[k].lon == lo0.lon;
        assert ps[k].lon == lo.lon;
      }
      if hi.lat != Last(ps).lat && hi.lat != first.lat {
        var k :| 0 <= k < |p| && p[k].lat == hi0.lat;
        assert ps[k].lat == hi.lat;
      }
      if hi.lon != Last(ps).lon && hi.lon != first.lon {
        var k :| 0 <= k < |p| && p[k].lon == hi0.lon;
        assert ps[k].lon == hi.lon;
      }
      assert ps[|ps| - 1] == Last(ps);
    }
  }

  /** The filter_map closure: `None` for fewer than two resolved points. */
  function ResolvedRoad(raw: RoadRaw, nodes: map<i64, Node>): Option<Road> {
    var pts := ResolvePoints(raw.nodes, nodes);
    if |pts| < 2 then None
    else Some(Road((SeqMin(pts[0], pts), SeqMax(pts[0], pts)), pts, raw.width, raw.speedlimit))
  }

  /** `extent.0 <= p <= extent.1` for every point, and each side is attained. */
  ghost predicate IsRoadExtent(r: Road) {
    && (forall k :: 0 <= k < |r.points| ==> Le(r.extent.0, r.points[k]) && Le(r.points[k], r.extent.1))
    && (exists k :: 0 <= k < |r.points| && r.points[k].lat == r.extent.0.lat)
    && (exists k :: 0 <= k < |r.points| && r.points[k].lon == r.extent.0.lon)
    && (exists k :: 0 <= k < |r.points| && r.points[k].lat == r.extent.1.lat)
    && (exists k :: 0 <= k < |r.points| && r.points[k].lon == r.extent.1.lon)
  }

  lemma ResolvedRoadSpec(raw: RoadRaw, nodes: map<i64, Node>)
    ensures ResolvedRoad(raw, nodes).Some? <==> |ResolvePoints(raw.nodes, nodes)| >= 2
    ensures ResolvedRoad(raw, nodes).Some? ==>
      var r := ResolvedRoad(raw, nodes).value;
      && r.points == ResolvePoints(raw.nodes, nodes)
      && r.width == raw.width && r.speedlimit == raw.speedlimit
      && IsRoadExtent(r)
  {
    var pts := ResolvePoints(raw.nodes, nodes);
    if |pts| >= 2 {
      SeqExtent(pts[0], pts);
    }
  }

  /** A way whose references resolve to one point (one id found, one missing)
      is dropped. */
  lemma DropsShortRoad(raw: RoadRaw, nodes: map<i64, Node>)
    requires |raw.nodes| == 2 && raw.nodes[0] in nodes && raw.nodes[1] !in nodes
    ensures ResolvedRoad(raw, nodes).None?
  {
    assert DropLast(raw.nodes) == [raw.nodes[0]];
    assert DropLast([raw.nodes[0]]) == [];
  }

  /** The resolution pass: the surviving roads, in the order of `raws`. */
  function Resolve(raws: seq<RoadRaw>, nodes: map<i64, Node>): (roads: seq<Road>)
    ensures |roads| <= |raws|
    ensures forall k :: 0 <= k < |roads| ==> |roads[k].points| >= 2
  {
    if raws == [] then []
    else
      var prev := Resolve(DropLast(raws), nodes);
      match ResolvedRoad(Last(raws), nodes)
      case Some(r) => prev + [r]
      case None => prev
  }

  lemma {:induction false} ResolveAppend(a: seq<RoadRaw>, b: seq<RoadRaw>, nodes: map<i64, Node>)
    ensures Resolve(a + b, nodes) == Resolve(a, nodes) + Resolve(b, nodes)
    decreases |b|
  {
    if b == [] {
      assert a + b == a;
    } else {
      assert DropLast(a + b) == a + DropLast(b) && Last(a + b) == Last(b);
      ResolveAppend(a, DropLast(b), nodes);
    }
  }

  /** Every resolved road carries its exact bounding box. */
  lemma {:induction false} ResolveExtents(raws: seq<RoadRaw>, nodes: map<i64, Node>)
    ensures forall k :: 0 <= k < |Resolve(raws, nodes)| ==> IsRoadExtent(Resolve(raws, nodes)[k])
  {
    if raws != [] {
      ResolveExtents(DropLast(raws), nodes);
      ResolvedRoadSpec(Last(raws), nodes);
    }
  }

  /** `read_osm_pbf` as a function of the extract. */
  function ReadMap(parse: FloatParser, file: Extract): Result<Map, ReadError> {
    match file
    case Unopenable => Err(OpenFailed)
    case Corrupt(_) => Err(DecodeFailed)
    case Complete(es) =>
      var s := Fold(parse, es);
      if s.coordMin.None? || s.coordMax.None? then Err(NoNodes)
      else Ok(Map(Resolve(s.dataRoads, s.nodes), [], (s.coordMin.value, s.coordMax.value)))
  }

  /** The outcome of reading: which failures occur, and what a map holds. */
  lemma ReadMapSpec(parse: FloatParser, file: Extract)
    ensures file.Unopenable? ==> ReadMap(parse, file) == Err(OpenFailed)
    ensures file.Corrupt? ==> ReadMap(parse, file) == Err(DecodeFailed)
    ensures file.Complete? ==> (ReadMap(parse, file).Ok? <==> HasNode(file.elements))
    ensures file.Complete? && !HasNode(file.elements) ==> ReadMap(parse, file) == Err(NoNodes)
    ensures ReadMap(parse, file).Ok? ==>
      var m := ReadMap(parse, file).value;
      && m.objects == []
      && |m.roads| <= |Fold(parse, file.elements).dataRoads|
      && IsMinExtent(m.extent.0, file.elements) && IsMaxExtent(m.extent.1, file.elements)
      && forall k :: 0 <= k < |m.roads| ==> |m.roads[k].points| >= 2 && IsRoadExtent(m.roads[k])
  {
    if file.Complete? {
      FoldExtentMin(parse, file.elements);
      FoldExtentMax(parse, file.elements);
      var s := Fold(parse, file.elements);
      ResolveExtents(s.dataRoads, s.nodes);
    }
  }

  /** Whether a node is delivered before or after a neighbouring way does not
      change the map. */
  lemma ReadMapOrderIndependent(parse: FloatParser, pre: seq<Element>, w: Element, n: Element, post: seq<Element>)
    requires w.WayElement? && NodeOf(n).Some?
    ensures ReadMap(parse, Complete(pre + [w, n] + post)) == ReadMap(parse, Complete(pre + [n, w] + post))
  {
    FoldSwapWayNode(parse, pre, w, n, post);
  }

  // ---------------------------------------------------------------------
  // The imperative code

  /** The element callback run over the stream, updating the four variables. */
  method IngestElements(parse: FloatParser, es: seq<Element>)
    returns (nodes: map<i64, Node>, dataRoads: seq<RoadRaw>, coordMin: Option<Coord>, coordMax: Option<Coord>)
    ensures FoldState(nodes, dataRoads, coordMin, coordMax) == Fold(parse, es)
  {
    nodes, dataRoads, coordMin, coordMax := map[], [], None, None;
    var i := 0;
    while i < |es|
      invariant 0 <= i <= |es|
      invariant FoldState(nodes, dataRoads, coordMin, coordMax) == Fold(parse, es[..i])
    {
      assert DropLast(es[..i + 1]) == es[..i] && Last(es[..i + 1]) == es[i];
      match es[i] {
      case WayElement(id, refs, tags) =>
        var m := TagMap(tags);
        if "highway" in m {
          var carAllowed := !(Get(m, "motorcar") == Some("no") || Get(m, "motor_vehicle") == Some("no"));
          if carAllowed {
            var width := ParseWidth(parse, Get(m, "width"));
            var speedlimit := ParseSpeedlimit(parse, Get(m, "speedlimit"));
            dataRoads := dataRoads + [RoadRaw(id, refs, m["highway"], width, speedlimit)];
          }
        }
      case NodeElement(id, lat, lon) =>
        var coord := Coord(lat, lon);
        coordMin := Some(if coordMin.Some? then coordMin.value.MinEach(coord) else coord);
        coordMax := Some(if coordMax.Some? then coordMax.value.MaxEach(coord) else coord);
        nodes := nodes[id := Node(id, coord)];
      case DenseNodeElement(id, lat, lon) =>
        var coord := Coord(lat, lon);
        coordMin := Some(if coordMin.Some? then coordMin.value.MinEach(coord) else coord);
        coordMax := Some(if coordMax.Some? then coordMax.value.MaxEach(coord) else coord);
        nodes := nodes[id := Node(id, coord)];
      case RelationElement =>
      }
      i := i + 1;
    }
    assert es[..|es|] == es;
  }

  /** The filter_map closure of the resolution pass, with its min/max loop. */
  method ResolveRoad(raw: RoadRaw, nodes: map<i64, Node>) returns (r: Option<Road>)
    ensures r == ResolvedRoad(raw, nodes)
  {
    var points := ResolvePoints(raw.nodes, nodes);
    if |points| < 2 {
      return None;
    }
    var roadMin, roadMax := points[0], points[0];
    for i := 0 to |points|
      invariant roadMin == SeqMin(points[0], points[..i])
      invariant roadMax == SeqMax(points[0], points[..i])
    {
      assert DropLast(points[..i + 1]) == points[..i] && Last(points[..i + 1]) == points[i];
      roadMin := roadMin.MinEach(points[i]);
      roadMax := roadMax.MaxEach(points[i]);
    }
    assert points[..|points|] == points;
    r := Some(Road((roadMin, roadMax), points, raw.width, raw.speedlimit));
  }

  /** `read_osm_pbf`: the panics of opening, decoding and of `unwrap` on an
      absent extent become errors. */
  method ReadOsmPbf(parse: FloatParser, file: Extract) returns (r: Result<Map, ReadError>)
    ensures r == ReadMap(parse, file)
  {
    if file.Unopenable? {
      return Err(OpenFailed);
    }
    var es := if file.Corrupt? then file.delivered else file.elements;
    var nodes, dataRoads, coordMin, coordMax := IngestElements(parse, es);
    if file.Corrupt? {
      return Err(DecodeFailed);
    }
    var roads := [];
    var i := 0;
    while i < |dataRoads|
      invariant 0 <= i <= |dataRoads|
      invariant roads == Resolve(dataRoads[..i], nodes)
    {
      assert DropLast(dataRoads[..i + 1]) == dataRoads[..i] && Last(dataRoads[..i + 1]) == dataRoads[i];
      var road := ResolveRoad(dataRoads[i], nodes);
      if road.Some? {
        roads := roads + [road.value];
      }
      i := i + 1;
    }
    assert dataRoads[..|dataRoads|] == dataRoads;
    if coordMin.None? || coordMax.None? {
      return Err(NoNodes);
    }
    r := Ok(Map(roads, [], (coordMin.value, coordMax.value)));
  }
}
