/**
  The converter itself: the span registry `Entities`, whose table and counter
  are updated in place, and `ConvertInstance`, which runs the registration
  pass, the expansion pass and the serialisation loops over one instance.
  Each is proved against the reference definitions of `FgcrModel`.
 */
module FgcrProcessing {
  import opened FgcrModel

  /**
    A registry keyed by offset pair is well formed when its insertion order
    lists every key exactly once, the counter is the number of keys, and the
    key inserted i-th holds index i.
   */
  ghost predicate WellFormed(m: map<Span, Entry>, order: seq<Span>, n: nat) {
    && |order| == n
    && (forall s :: s in m <==> s in order)
    && Distinct(order)
    && (forall i :: 0 <= i < |order| ==> order[i] in m && m[order[i]].index == i)
  }

  /** The registry listed in insertion order, as the output's span list. */
  function Records(m: map<Span, Entry>, order: seq<Span>): seq<SpanRecord>
    requires forall s :: s in order ==> s in m
  {
    seq(|order|, i requires 0 <= i < |order| => RecordOf(order[i], m[order[i]].kind))
  }

  lemma OffsetsOfRecords(m: map<Span, Entry>, order: seq<Span>)
    requires forall s :: s in order ==> s in m
    ensures Offsets(Records(m, order)) == order
  {
  }

  /** The indices a registry hands out. */
  function Indices(m: map<Span, Entry>): set<nat> {
    set s | s in m :: m[s].index
  }

  /** The set {0, .., n-1}. */
  function Below(n: nat): (r: set<nat>)
    ensures forall i: int :: i in r <==> 0 <= i < n
  {
    if n == 0 then {} else Below(n - 1) + {n - 1}
  }

  /**
    The stored indices are exactly 0 .. n-1, no two keys share one, and the
    counter is the number of keys.
   */
  lemma DenseIndices(m: map<Span, Entry>, order: seq<Span>, n: nat)
    requires WellFormed(m, order, n)
    ensures |m| == n
    ensures Indices(m) == Below(n)
    ensures forall s1, s2 :: s1 in m && s2 in m && s1 != s2 ==> m[s1].index != m[s2].index
  {
    assert m.Keys == Elems(order);
    DistinctCard(order);
    forall i | i in Below(n)
      ensures i in Indices(m)
    {
      assert m[order[i]].index == i;
    }
  }

  /** Inserting an unseen pair at the counter appends it to the span list. */
  lemma Insert(m: map<Span, Entry>, order: seq<Span>, n: nat, s: Span, kind: string)
    requires WellFormed(m, order, n) && s !in m
    ensures WellFormed(m[s := Entry(n, kind)], order + [s], n + 1)
    ensures Records(m[s := Entry(n, kind)], order + [s]) == Records(m, order) + [RecordOf(s, kind)]
  {
  }

  /**
    The span list determines the registry: a well-formed registry whose span
    list extends another's keeps every entry of the other unchanged, and
    equal span lists mean equal registries.
   */
  lemma RecordsDetermine(
    m1: map<Span, Entry>, o1: seq<Span>, n1: nat,
    m2: map<Span, Entry>, o2: seq<Span>, n2: nat)
    requires WellFormed(m1, o1, n1) && WellFormed(m2, o2, n2)
    requires Records(m1, o1) <= Records(m2, o2)
    ensures o1 <= o2
    ensures forall s :: s in m1 ==> s in m2 && m2[s] == m1[s]
    ensures Records(m1, o1) == Records(m2, o2) ==> m1 == m2 && o1 == o2 && n1 == n2
  {
    OffsetsOfRecords(m1, o1);
    OffsetsOfRecords(m2, o2);
    var r1, r2 := Records(m1, o1), Records(m2, o2);
    assert o1 == Offsets(r1) == Offsets(r2)[..|r1|];
    forall s | s in m1
      ensures s in m2 && m2[s] == m1[s]
    {
      var i :| 0 <= i < |o1| && o1[i] == s;
      assert r1[i] == r2[i];
    }
  }

  /**
    What registration does to a well-formed registry, stated on its table:
    every entry already present survives unchanged, every registered pair is
    present, and registering only present pairs leaves the registry as it was.
   */
  lemma Added(
    m0: map<Span, Entry>, o0: seq<Span>, n0: nat,
    m: map<Span, Entry>, o: seq<Span>, n: nat,
    spans: seq<Span>, kind: string)
    requires WellFormed(m0, o0, n0) && WellFormed(m, o, n)
    requires Records(m, o) == Register(Records(m0, o0), spans, kind)
    ensures forall s :: s in m0 ==> s in m && m[s] == m0[s]
    ensures forall s :: s in spans ==> s in m
    ensures (forall s :: s in spans ==> s in m0) ==> m == m0 && n == n0 && o == o0
  {
    var was := Records(m0, o0);
    RegisterExtends(was, spans, kind);
    RecordsDetermine(m0, o0, n0, m, o, n);
    RegisterContents(was, spans, kind);
    OffsetsOfRecords(m, o);
    OffsetsOfRecords(m0, o0);
    forall s | s in spans
      ensures s in m
    {
      assert s in Elems(spans);
    }
    if forall s :: s in spans ==> s in m0 {
      RegisterPresent(was, spans, kind);
    }
  }

  /** The offset-pair registry of one instance (`Entities`). */
  class Entities {
    /** Offset pair to its index and first-registered kind. */
    var entities: map<Span, Entry>
    /** The index the next unseen pair receives. */
    var idxCounter: nat
    /** The keys of `entities` in the order they were inserted. */
    var order: seq<Span>

    ghost predicate Valid()
      reads this
    {
      WellFormed(entities, order, idxCounter)
    }

    /** The span list the registry serialises to. */
    ghost function Contents(): seq<SpanRecord>
      reads this
      requires Valid()
    {
      Records(entities, order)
    }

    constructor ()
      ensures Valid()
      ensures entities == map[] && idxCounter == 0 && Contents() == []
    {
      entities := map[];
      idxCounter := 0;
      order := [];
    }

    /**
      Registers each pair of `spans` with `kind`: an unseen pair receives the
      current counter value, which is then incremented; a pair already
      present keeps its index and kind.
     */
    method AddEntities(spans: seq<Span>, kind: string)
      requires Valid()
      modifies this
      ensures Valid()
      ensures Contents() == Register(old(Contents()), spans, kind)
      ensures forall s :: s in old(entities) ==> s in entities && entities[s] == old(entities)[s]
      ensures forall s :: s in spans ==> s in entities
      ensures (forall s :: s in spans ==> s in old(entities)) ==>
        entities == old(entities) && idxCounter == old(idxCounter) && order == old(order)
    {
      if spans == [] {
        return;
      }
      for i := 0 to |spans|
        invariant Valid()
        invariant Register(Contents(), spans[i..], kind) == Register(old(Contents()), spans, kind)
      {
        var s := spans[i];
        assert spans[i..] == [s] + spans[i + 1..];
        OffsetsOfRecords(entities, order);
        if s !in entities {
          Insert(entities, order, idxCounter, s, kind);
          entities := entities[s := Entry(idxCounter, kind)];
          order := order + [s];
          idxCounter := idxCounter + 1;
        }
      }
      Added(old(entities), old(order), old(idxCounter), entities, order, idxCounter, spans, kind);
    }

    /** The index stored for a registered pair (`get_entity_index`). */
    method GetEntityIndex(s: Span) returns (idx: nat)
      requires Valid()
      requires s in entities
      ensures idx == entities[s].index
      ensures idx < |Contents()| && SpanOf(Contents()[idx]) == s
    {
      idx := entities[s].index;
      ghost var i :| 0 <= i < |order| && order[i] == s;
    }
  }

  /**
    The relations one annotation contributes (the body of the expansion
    pass): none for an N:M annotation or one with an empty side, otherwise
    one per cause (fan-in), one per effect (fan-out) or exactly one (1:1),
    numbered through the registry.
   */
  method ExpandRelation(entities: Entities, l: LabelData) returns (rels: seq<Relation>)
    requires entities.Valid()
    requires !IsManyToMany(l) ==> forall s :: s in l.reason || s in l.result ==> s in entities.entities
    ensures RelationsDenote(rels, entities.Contents(), Expand(l))
  {
    var causes, effects := l.reason, l.result;
    rels := [];
    if |causes| > 1 && |effects| > 1 {
      return;
    }
    if causes == [] || effects == [] {
      ExpandEmptySide(l);
      return;
    }
    ghost var t := entities.Contents();
    if |causes| > 1 {
      assert |effects| == 1;
      ExpandFanIn(l);
      var effect := entities.GetEntityIndex(effects[0]);
      for k := 0 to |causes|
        invariant |rels| == k
        invariant forall i :: 0 <= i < k ==> Denotes(rels[i].kind, rels[i].causeIdx, rels[i].effectIdx, t, Expand(l)[i])
      {
        var cause := entities.GetEntityIndex(causes[k]);
        rels := rels + [Relation(l.kind, cause, effect)];
      }
    } else if |effects| > 1 {
      assert |causes| == 1;
      ExpandFanOut(l);
      var cause := entities.GetEntityIndex(causes[0]);
      for k := 0 to |effects|
        invariant |rels| == k
        invariant forall i :: 0 <= i < k ==> Denotes(rels[i].kind, rels[i].causeIdx, rels[i].effectIdx, t, Expand(l)[i])
      {
        var effect := entities.GetEntityIndex(effects[k]);
        rels := rels + [Relation(l.kind, cause, effect)];
      }
    } else {
      assert |causes| == |effects| == 1;
      ExpandOneToOne(l);
      var cause := entities.GetEntityIndex(causes[0]);
      var effect := entities.GetEntityIndex(effects[0]);
      rels := [Relation(l.kind, cause, effect)];
    }
  }

  /**
    The registration pass of `convert_instance`: a fresh registry into which
    every relation that is not N:M registers its causes, then its effects.
   */
  method RegisterSpans(labels: seq<LabelData>) returns (entities: Entities)
    ensures fresh(entities) && entities.Valid()
    ensures entities.Contents() == PrePass([], labels)
  {
    entities := new Entities();
    for j := 0 to |labels|
      invariant entities.Valid()
      invariant PrePass(entities.Contents(), labels[j..]) == PrePass([], labels)
    {
      var relation := labels[j];
      assert labels[j..] == [relation] + labels[j + 1..];
      if |relation.result| > 1 && |relation.reason| > 1 {
        continue;
      }
      entities.AddEntities(relation.reason, CauseKind);
      entities.AddEntities(relation.result, EffectKind);
    }
  }

  /**
    After the pre-pass every span of a relation that is not N:M is a key of
    the registry, so the expansion pass never looks up a missing pair.
   */
  lemma PrePassRegisters(m: map<Span, Entry>, o: seq<Span>, n: nat, labels: seq<LabelData>, j: nat)
    requires WellFormed(m, o, n) && Records(m, o) == PrePass([], labels)
    requires j < |labels| && !IsManyToMany(labels[j])
    ensures forall s :: s in labels[j].reason || s in labels[j].result ==> s in m
  {
    assert Distinct(Offsets([]));
    assert Elems(Offsets([])) == {};
    PrePassContents([], labels);
    OffsetsOfRecords(m, o);
    SupportedCovers(labels, j);
    forall s | s in labels[j].reason || s in labels[j].result
      ensures s in m
    {
      assert s in Elems(labels[j].reason) || s in Elems(labels[j].result);
      assert s in Elems(o);
    }
  }

  /**
    The expansion pass of `convert_instance`: every lookup succeeds because
    the registry is the one the registration pass built from the same
    annotations, and the relations are the instance's edges, numbered.
   */
  method ExpandAll(entities: Entities, labels: seq<LabelData>) returns (relations: seq<Relation>)
    requires entities.Valid()
    requires entities.Contents() == PrePass([], labels)
    ensures RelationsDenote(relations, entities.Contents(), Edges(labels))
  {
    ghost var t := entities.Contents();
    relations := [];
    for j := 0 to |labels|
      invariant RelationsDenote(relations, t, Edges(labels[..j]))
    {
      var relation := labels[j];
      assert labels[..j + 1] == labels[..j] + [relation];
      EdgesSnoc(labels[..j], relation);
      if !IsManyToMany(relation) {
        PrePassRegisters(entities.entities, entities.order, entities.idxCounter, labels, j);
      }
      var rels := ExpandRelation(entities, relation);
      RelationsDenoteAppend(relations, rels, t, Edges(labels[..j]), Expand(relation));
      relations := relations + rels;
    }
    assert labels[..|labels|] == labels;
  }

  /** The `span_pair_list` loop: one entry per relation, in order. */
  method SerialisePairs(relations: seq<Relation>) returns (spanPairList: seq<SpanPair>)
    ensures |spanPairList| == |relations|
    ensures forall k :: 0 <= k < |relations| ==> spanPairList[k] == ToPair(relations[k])
  {
    spanPairList := [];
    for i := 0 to |relations|
      invariant |spanPairList| == i
      invariant forall k :: 0 <= k < i ==> spanPairList[k] == ToPair(relations[k])
    {
      var relation := relations[i];
      spanPairList := spanPairList + [SpanPair(relation.kind, relation.causeIdx, relation.effectIdx)];
    }
  }

  /**
    The `span_list` loop: the registry's items in insertion order, each as
    its kind and offsets; entry i is the pair holding index i.
   */
  method SerialiseSpans(entities: Entities) returns (spanList: seq<SpanRecord>)
    requires entities.Valid()
    ensures spanList == entities.Contents()
    ensures forall i :: 0 <= i < |spanList| ==>
      Span(spanList[i].start, spanList[i].end) in entities.entities &&
      entities.entities[Span(spanList[i].start, spanList[i].end)] == Entry(i, spanList[i].kind)
  {
    var order, m := entities.order, entities.entities;
    ghost var t := entities.Contents();
    spanList := [];
    for i := 0 to |order|
      invariant spanList == t[..i]
    {
      var s := order[i];
      var entry := m[s];
      spanList := spanList + [SpanRecord(entry.kind, s.start, s.end)];
    }
  }

  /**
    Converts one instance (`convert_instance`); the tokenizer is a parameter.
    The span list is the registry after the pre-pass, in first-registration
    order, without repeated offset pairs; the span pairs are the instance's
    edges in order, each numbered by the indices of its cause and effect in
    that span list, so every head and tail is in range.
   */
  method ConvertInstance(inst: RawInstance, tokenise: string -> seq<string>) returns (out: ConvertedInstance)
    ensures out.id == inst.tid && out.tokens == tokenise(inst.info)
    ensures out.spanList == PrePass([], inst.labelData)
    ensures Distinct(Offsets(out.spanList))
    ensures PairsDenote(out.spanPairList, out.spanList, Edges(inst.labelData))
    ensures forall p :: p in out.spanPairList ==> p.head < |out.spanList| && p.tail < |out.spanList|
  {
    var entities := RegisterSpans(inst.labelData);
    var relations := ExpandAll(entities, inst.labelData);
    ghost var t := entities.Contents();
    assert Distinct(Offsets([]));
    PrePassContents([], inst.labelData);

    var spanPairList := SerialisePairs(relations);
    SerialisedDenote(relations, spanPairList, t, Edges(inst.labelData));
    var spanList := SerialiseSpans(entities);
    out := ConvertedInstance(inst.tid, tokenise(inst.info), spanPairList, spanList);
  }
}
