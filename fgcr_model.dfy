/**
  Values and reference definitions for the FGCR conversion: what the span
  registry holds after a sequence of registrations, which directed edges one
  causal annotation denotes, and the lemmas that state the converter's laws
  about them.
 */
module FgcrModel {

  /** A half-open `[start, end)` character-offset pair; the registry's key. */
  datatype Span = Span(start: int, end: int)

  /** One `labelData` entry: a relation type and its cause and effect spans. */
  datatype LabelData = LabelData(kind: string, reason: seq<Span>, result: seq<Span>)

  /** One raw FGCR instance. */
  datatype RawInstance = RawInstance(tid: string, info: string, labelData: seq<LabelData>)

  /** The value the registry keeps per offset pair: its index and its kind. */
  datatype Entry = Entry(index: nat, kind: string)

  /** One `span_list` element of the output. */
  datatype SpanRecord = SpanRecord(kind: string, start: int, end: int)

  /** The `Relation` dataclass: a typed edge between two span indices. */
  datatype Relation = Relation(kind: string, causeIdx: nat, effectIdx: nat)

  /** One `span_pair_list` element of the output. */
  datatype SpanPair = SpanPair(kind: string, head: nat, tail: nat)

  /** The converted record. */
  datatype ConvertedInstance = ConvertedInstance(
    id: string,
    tokens: seq<string>,
    spanPairList: seq<SpanPair>,
    spanList: seq<SpanRecord>)

  /** A directed edge between two offset pairs, before spans are numbered. */
  datatype Edge = Edge(kind: string, cause: Span, effect: Span)

  const CauseKind: string := "cause"
  const EffectKind: string := "effect"

  // ---------------------------------------------------------------------
  // Sequences
  // ---------------------------------------------------------------------

  predicate Distinct<T(==)>(s: seq<T>) {
    forall i, j :: 0 <= i < j < |s| ==> s[i] != s[j]
  }

  function Elems<T>(s: seq<T>): set<T> {
    set x | x in s
  }

  /** A duplicate-free sequence has as many elements as its set. */
  lemma {:induction false} DistinctCard<T>(s: seq<T>)
    requires Distinct(s)
    ensures |Elems(s)| == |s|
  {
    if s != [] {
      var last := s[|s| - 1];
      var init := s[..|s| - 1];
      assert Distinct(init);
      DistinctCard(init);
      assert Elems(s) == Elems(init) + {last};
      assert last !in Elems(init);
    }
  }

  // ---------------------------------------------------------------------
  // The registry as the span list it serialises to
  // ---------------------------------------------------------------------

  function SpanOf(r: SpanRecord): Span {
    Span(r.start, r.end)
  }

  function RecordOf(s: Span, kind: string): SpanRecord {
    SpanRecord(kind, s.start, s.end)
  }

  /** The offset pairs of a span list, in order. */
  function Offsets(t: seq<SpanRecord>): seq<Span> {
    seq(|t|, i requires 0 <= i < |t| => SpanOf(t[i]))
  }

  /**
    The span list after registering `spans` with `kind`, in order: a pair
    already present is skipped, an unseen one is appended with `kind`.
   */
  function Register(t: seq<SpanRecord>, spans: seq<Span>, kind: string): seq<SpanRecord>
    decreases |spans|
  {
    if spans == [] then t
    else
      var t' := if spans[0] in Offsets(t) then t else t + [RecordOf(spans[0], kind)];
      Register(t', spans[1..], kind)
  }

  lemma OffsetsSnoc(t: seq<SpanRecord>, s: Span, kind: string)
    ensures Offsets(t + [RecordOf(s, kind)]) == Offsets(t) + [s]
  {
  }

  /** Registration never changes an existing entry: the first kind wins. */
  lemma {:induction false} RegisterExtends(t: seq<SpanRecord>, spans: seq<Span>, kind: string)
    ensures t <= Register(t, spans, kind)
    decreases |spans|
  {
    if spans != [] {
      var t' := if spans[0] in Offsets(t) then t else t + [RecordOf(spans[0], kind)];
      RegisterExtends(t', spans[1..], kind);
    }
  }

  /** Registration never adds an offset pair twice. */
  lemma {:induction false} RegisterDistinct(t: seq<SpanRecord>, spans: seq<Span>, kind: string)
    requires Distinct(Offsets(t))
    ensures Distinct(Offsets(Register(t, spans, kind)))
    decreases |spans|
  {
    if spans != [] {
      var s := spans[0];
      if s in Offsets(t) {
        RegisterDistinct(t, spans[1..], kind);
      } else {
        OffsetsSnoc(t, s, kind);
        RegisterDistinct(t + [RecordOf(s, kind)], spans[1..], kind);
      }
    }
  }

  /**
    After registration the span list holds exactly the pairs it held before
    and the registered ones, and every appended entry is one of the
    registered pairs, carrying `kind`.
   */
  lemma {:induction false} RegisterContents(t: seq<SpanRecord>, spans: seq<Span>, kind: string)
    ensures Elems(Offsets(Register(t, spans, kind))) == Elems(Offsets(t)) + Elems(spans)
    ensures forall i :: |t| <= i < |Register(t, spans, kind)| ==>
      Register(t, spans, kind)[i].kind == kind && SpanOf(Register(t, spans, kind)[i]) in spans
    decreases |spans|
  {
    if spans != [] {
      var s := spans[0];
      var t' := if s in Offsets(t) then t else t + [RecordOf(s, kind)];
      OffsetsSnoc(t, s, kind);
      assert Elems(Offsets(t')) == Elems(Offsets(t)) + {s};
      RegisterContents(t', spans[1..], kind);
      RegisterExtends(t', spans[1..], kind);
      assert Elems(spans) == {s} + Elems(spans[1..]);
    }
  }

  /** Registering pairs that are all present already changes nothing. */
  lemma {:induction false} RegisterPresent(t: seq<SpanRecord>, spans: seq<Span>, kind: string)
    requires forall s :: s in spans ==> s in Offsets(t)
    ensures Register(t, spans, kind) == t
    decreases |spans|
  {
    if spans != [] {
      RegisterPresent(t, spans[1..], kind);
    }
  }

  // ---------------------------------------------------------------------
  // The registration pre-pass
  // ---------------------------------------------------------------------

  /** Both sides have more than one span: the output cannot express it. */
  predicate IsManyToMany(l: LabelData) {
    |l.reason| > 1 && |l.result| > 1
  }

  /**
    The span list after the pre-pass over `ls`: every relation that is not
    N:M registers its causes, then its effects.
   */
  function PrePass(t: seq<SpanRecord>, ls: seq<LabelData>): seq<SpanRecord>
    decreases |ls|
  {
    if ls == [] then t
    else if IsManyToMany(ls[0]) then PrePass(t, ls[1..])
    else PrePass(Register(Register(t, ls[0].reason, CauseKind), ls[0].result, EffectKind), ls[1..])
  }

  /** Cause spans of the relations the pre-pass does not skip. */
  function SupportedCauses(ls: seq<LabelData>): set<Span>
    decreases |ls|
  {
    if ls == [] then {}
    else (if IsManyToMany(ls[0]) then {} else Elems(ls[0].reason)) + SupportedCauses(ls[1..])
  }

  /** Effect spans of the relations the pre-pass does not skip. */
  function SupportedEffects(ls: seq<LabelData>): set<Span>
    decreases |ls|
  {
    if ls == [] then {}
    else (if IsManyToMany(ls[0]) then {} else Elems(ls[0].result)) + SupportedEffects(ls[1..])
  }

  lemma SupportedCovers(ls: seq<LabelData>, k: nat)
    requires k < |ls| && !IsManyToMany(ls[k])
    ensures Elems(ls[k].reason) <= SupportedCauses(ls)
    ensures Elems(ls[k].result) <= SupportedEffects(ls)
    decreases k
  {
    if k > 0 {
      SupportedCovers(ls[1..], k - 1);
    }
  }

  /** The pre-pass keeps every entry already present, with its index and kind. */
  lemma {:induction false} PrePassExtends(t: seq<SpanRecord>, ls: seq<LabelData>)
    ensures t <= PrePass(t, ls)
    decreases |ls|
  {
    if ls != [] {
      if IsManyToMany(ls[0]) {
        PrePassExtends(t, ls[1..]);
      } else {
        var t1 := Register(t, ls[0].reason, CauseKind);
        var t2 := Register(t1, ls[0].result, EffectKind);
        RegisterExtends(t, ls[0].reason, CauseKind);
        RegisterExtends(t1, ls[0].result, EffectKind);
        PrePassExtends(t2, ls[1..]);
      }
    }
  }

  /**
    The pre-pass adds exactly the spans of the relations that are not N:M,
    each once, an appended cause as "cause" and an appended effect as
    "effect"; the spans of an N:M relation are added only if another
    relation names them.
   */
  lemma {:induction false} PrePassContents(t: seq<SpanRecord>, ls: seq<LabelData>)
    requires Distinct(Offsets(t))
    ensures Distinct(Offsets(PrePass(t, ls)))
    ensures Elems(Offsets(PrePass(t, ls))) == Elems(Offsets(t)) + SupportedCauses(ls) + SupportedEffects(ls)
    ensures forall i :: |t| <= i < |PrePass(t, ls)| ==>
      || (PrePass(t, ls)[i].kind == CauseKind && SpanOf(PrePass(t, ls)[i]) in SupportedCauses(ls))
      || (PrePass(t, ls)[i].kind == EffectKind && SpanOf(PrePass(t, ls)[i]) in SupportedEffects(ls))
    decreases |ls|
  {
    if ls != [] {
      var l := ls[0];
      if IsManyToMany(l) {
        PrePassContents(t, ls[1..]);
      } else {
        var t1 := Register(t, l.reason, CauseKind);
        var t2 := Register(t1, l.result, EffectKind);
        RegisterDistinct(t, l.reason, CauseKind);
        RegisterDistinct(t1, l.result, EffectKind);
        RegisterContents(t, l.reason, CauseKind);
        RegisterContents(t1, l.result, EffectKind);
        RegisterExtends(t1, l.result, EffectKind);
        PrePassContents(t2, ls[1..]);
        PrePassExtends(t2, ls[1..]);
        var r := PrePass(t, ls);
        assert r == PrePass(t2, ls[1..]);
        SupportedCovers(ls, 0);
        forall i | |t| <= i < |r|
          ensures || (r[i].kind == CauseKind && SpanOf(r[i]) in SupportedCauses(ls))
                  || (r[i].kind == EffectKind && SpanOf(r[i]) in SupportedEffects(ls))
        {
          if i < |t1| {
            assert r[i] == t1[i];
          } else if i < |t2| {
            assert r[i] == t2[i];
          }
        }
      }
    }
  }

  /**
    The number of spans in the converted record equals the number of distinct
    offset pairs named by the relations that are not N:M.
   */
  lemma SpanListSize(ls: seq<LabelData>)
    ensures |PrePass([], ls)| == |SupportedCauses(ls) + SupportedEffects(ls)|
  {
    assert Distinct(Offsets([]));
    PrePassContents([], ls);
    var r := PrePass([], ls);
    assert Elems(Offsets([])) == {};
    DistinctCard(Offsets(r));
  }

  // ---------------------------------------------------------------------
  // Relation expansion
  // ---------------------------------------------------------------------

  /** The edges from one cause to every effect, in effect order. */
  function Row(kind: string, cause: Span, effects: seq<Span>): seq<Edge> {
    seq(|effects|, j requires 0 <= j < |effects| => Edge(kind, cause, effects[j]))
  }

  /** Every cause paired with every effect, cause-major. */
  function Product(kind: string, causes: seq<Span>, effects: seq<Span>): seq<Edge>
    decreases |causes|
  {
    if causes == [] then [] else Row(kind, causes[0], effects) + Product(kind, causes[1..], effects)
  }

  /**
    The edges one annotation denotes: all cause/effect combinations, except
    for an N:M annotation, which the output schema cannot express and which
    therefore denotes none.
   */
  function Expand(l: LabelData): seq<Edge> {
    if IsManyToMany(l) then [] else Product(l.kind, l.reason, l.result)
  }

  /** The edges of a whole instance: the annotations' edges in turn. */
  function Edges(ls: seq<LabelData>): seq<Edge>
    decreases |ls|
  {
    if ls == [] then [] else Expand(ls[0]) + Edges(ls[1..])
  }

  lemma {:induction false} ProductSize(kind: string, causes: seq<Span>, effects: seq<Span>)
    ensures |Product(kind, causes, effects)| == |causes| * |effects|
    decreases |causes|
  {
    if causes != [] {
      ProductSize(kind, causes[1..], effects);
      assert |causes| * |effects| == |effects| + (|causes| - 1) * |effects|;
    }
  }

  lemma {:induction false} ProductMembers(kind: string, causes: seq<Span>, effects: seq<Span>, e: Edge)
    ensures e in Product(kind, causes, effects) <==> e.kind == kind && e.cause in causes && e.effect in effects
    decreases |causes|
  {
    if causes != [] {
      ProductMembers(kind, causes[1..], effects, e);
      var row := Row(kind, causes[0], effects);
      if e in row {
        var j :| 0 <= j < |row| && row[j] == e;
        assert e.effect == effects[j];
      }
      if e.kind == kind && e.cause == causes[0] && e.effect in effects {
        var j :| 0 <= j < |effects| && effects[j] == e.effect;
        assert row[j] == e;
      }
      assert causes == [causes[0]] + causes[1..];
    }
  }

  /** An annotation denotes the edges from each of its causes to each of its effects. */
  lemma ExpandMembers(l: LabelData, e: Edge)
    ensures e in Expand(l) <==>
      !IsManyToMany(l) && e.kind == l.kind && e.cause in l.reason && e.effect in l.result
  {
    if !IsManyToMany(l) {
      ProductMembers(l.kind, l.reason, l.result, e);
    }
  }

  /** Every annotation but an N:M one has |reason| * |result| edges. */
  lemma ExpandSize(l: LabelData)
    ensures |Expand(l)| == if IsManyToMany(l) then 0 else |l.reason| * |l.result|
  {
    if !IsManyToMany(l) {
      ProductSize(l.kind, l.reason, l.result);
    }
  }

  /** An N:M annotation yields no edge; this holds by the definition of `Expand`. */
  lemma ExpandManyToMany(l: LabelData)
    requires IsManyToMany(l)
    ensures Expand(l) == []
  {
  }

  /** An annotation with no cause or no effect yields no edge. */
  lemma ExpandEmptySide(l: LabelData)
    requires l.reason == [] || l.result == []
    ensures Expand(l) == []
  {
    ExpandSize(l);
  }

  /** Fan-in: one edge per cause, in cause order, all into the single effect. */
  lemma {:induction false} ProductFanIn(kind: string, causes: seq<Span>, effect: Span)
    ensures Product(kind, causes, [effect]) ==
      seq(|causes|, i requires 0 <= i < |causes| => Edge(kind, causes[i], effect))
    decreases |causes|
  {
    if causes != [] {
      ProductFanIn(kind, causes[1..], effect);
      assert Row(kind, causes[0], [effect]) == [Edge(kind, causes[0], effect)];
    }
  }

  lemma ExpandFanIn(l: LabelData)
    requires |l.reason| > 1 && |l.result| == 1
    ensures |Expand(l)| == |l.reason|
    ensures forall i :: 0 <= i < |l.reason| ==> Expand(l)[i] == Edge(l.kind, l.reason[i], l.result[0])
  {
    assert l.result == [l.result[0]];
    ProductFanIn(l.kind, l.reason, l.result[0]);
  }

  /** Fan-out: one edge per effect, in effect order, all from the single cause. */
  lemma ExpandFanOut(l: LabelData)
    requires |l.reason| == 1 && |l.result| >= 1
    ensures |Expand(l)| == |l.result|
    ensures forall j :: 0 <= j < |l.result| ==> Expand(l)[j] == Edge(l.kind, l.reason[0], l.result[j])
  {
    assert Product(l.kind, l.reason[1..], l.result) == [];
  }

  /** A 1:1 annotation yields exactly its one edge. */
  lemma ExpandOneToOne(l: LabelData)
    requires |l.reason| == 1 && |l.result| == 1
    ensures Expand(l) == [Edge(l.kind, l.reason[0], l.result[0])]
  {
    ExpandFanOut(l);
  }

  /** Edges of a longer instance: the previous ones, then the new annotation's. */
  lemma {:induction false} EdgesSnoc(ls: seq<LabelData>, l: LabelData)
    ensures Edges(ls + [l]) == Edges(ls) + Expand(l)
    decreases |ls|
  {
    if ls == [] {
      assert [l][1..] == [];
    } else {
      assert (ls + [l])[1..] == ls[1..] + [l];
      EdgesSnoc(ls[1..], l);
    }
  }

  // ---------------------------------------------------------------------
  // Numbered edges
  // ---------------------------------------------------------------------

  /**
    A numbered edge `(kind, head, tail)` stands for `e` in span list `t`: both
    indices are in range and name `e`'s cause and effect.
   */
  predicate Denotes(kind: string, head: nat, tail: nat, t: seq<SpanRecord>, e: Edge) {
    && kind == e.kind
    && head < |t| && tail < |t|
    && SpanOf(t[head]) == e.cause
    && SpanOf(t[tail]) == e.effect
  }

  predicate PairsDenote(ps: seq<SpanPair>, t: seq<SpanRecord>, es: seq<Edge>) {
    && |ps| == |es|
    && forall i :: 0 <= i < |ps| ==> Denotes(ps[i].kind, ps[i].head, ps[i].tail, t, es[i])
  }

  predicate RelationsDenote(rs: seq<Relation>, t: seq<SpanRecord>, es: seq<Edge>) {
    && |rs| == |es|
    && forall i :: 0 <= i < |rs| ==> Denotes(rs[i].kind, rs[i].causeIdx, rs[i].effectIdx, t, es[i])
  }

  lemma RelationsDenoteAppend(rs1: seq<Relation>, rs2: seq<Relation>, t: seq<SpanRecord>, es1: seq<Edge>, es2: seq<Edge>)
    requires RelationsDenote(rs1, t, es1) && RelationsDenote(rs2, t, es2)
    ensures RelationsDenote(rs1 + rs2, t, es1 + es2)
  {
  }

  /** The `span_pair_list` entry of a relation: its type, head = cause, tail = effect. */
  function ToPair(r: Relation): SpanPair {
    SpanPair(r.kind, r.causeIdx, r.effectIdx)
  }

  lemma SerialisedDenote(rs: seq<Relation>, ps: seq<SpanPair>, t: seq<SpanRecord>, es: seq<Edge>)
    requires RelationsDenote(rs, t, es)
    requires |ps| == |rs| && forall k :: 0 <= k < |rs| ==> ps[k] == ToPair(rs[k])
    ensures PairsDenote(ps, t, es)
  {
  }

  /**
    Over a span list without repeated offset pairs the numbering of edges is
    unique, so the converted record is a function of its input.
   */
  lemma PairsDenoteUnique(ps1: seq<SpanPair>, ps2: seq<SpanPair>, t: seq<SpanRecord>, es: seq<Edge>)
    requires Distinct(Offsets(t))
    requires PairsDenote(ps1, t, es) && PairsDenote(ps2, t, es)
    ensures ps1 == ps2
  {
    forall i | 0 <= i < |ps1|
      ensures ps1[i] == ps2[i]
    {
      assert Offsets(t)[ps1[i].head] == Offsets(t)[ps2[i].head];
      assert Offsets(t)[ps1[i].tail] == Offsets(t)[ps2[i].tail];
    }
  }

  // ---------------------------------------------------------------------
  // Worked examples
  // ---------------------------------------------------------------------

  /**
    A single 1:1 annotation `(0,3) -> (5,8)`: the span list is the cause then
    the effect, and the only numbering of its edge is `(0, 1)`.
   */
  lemma ExampleOneToOne(ps: seq<SpanPair>)
    requires PairsDenote(ps,
      PrePass([], [LabelData("cause", [Span(0, 3)], [Span(5, 8)])]),
      Edges([LabelData("cause", [Span(0, 3)], [Span(5, 8)])]))
    ensures PrePass([], [LabelData("cause", [Span(0, 3)], [Span(5, 8)])]) ==
      [SpanRecord(CauseKind, 0, 3), SpanRecord(EffectKind, 5, 8)]
    ensures ps == [SpanPair("cause", 0, 1)]
  {
  }

  /** An annotation with an effect but no cause. */
  const EmptySideExample := LabelData("cause", [], [Span(5, 8)])

  /**
    The registration pass still registers the non-empty side of an annotation
    with an empty side, while the expansion pass gives it no edge: its span
    is in the span list, and no span pair refers to it.
   */
  lemma ExampleEmptySide()
    ensures PrePass([], [EmptySideExample]) == [SpanRecord(EffectKind, 5, 8)]
    ensures Edges([EmptySideExample]) == []
  {
    ExpandEmptySide(EmptySideExample);
    assert [Span(5, 8)][1..] == [];
  }

  /** The fan-in annotation `(0,3), (4,7) -> (9,12)`. */
  const FanInExample := LabelData("cause", [Span(0, 3), Span(4, 7)], [Span(9, 12)])

  /** Its span list: the two causes, then the effect. */
  lemma ExampleFanInSpans()
    ensures PrePass([], [FanInExample]) ==
      [SpanRecord(CauseKind, 0, 3), SpanRecord(CauseKind, 4, 7), SpanRecord(EffectKind, 9, 12)]
  {
  }

  /** Its edges: each cause into the effect, in cause order. */
  lemma ExampleFanInEdges()
    ensures Edges([FanInExample]) ==
      [Edge("cause", Span(0, 3), Span(9, 12)), Edge("cause", Span(4, 7), Span(9, 12))]
  {
  }

  /**
    Its span pairs: two, sharing the effect's index as tail, with the causes'
    indices as heads in cause order.
   */
  lemma ExampleFanIn(ps: seq<SpanPair>)
    requires PairsDenote(ps, PrePass([], [FanInExample]), Edges([FanInExample]))
    ensures ps == [SpanPair("cause", 0, 2), SpanPair("cause", 1, 2)]
  {
    ExampleFanInSpans();
    ExampleFanInEdges();
    var t := PrePass([], [FanInExample]);
    assert Offsets(t) == [Span(0, 3), Span(4, 7), Span(9, 12)];
    PairsDenoteUnique(ps, [SpanPair("cause", 0, 2), SpanPair("cause", 1, 2)], t, Edges([FanInExample]));
  }
}
