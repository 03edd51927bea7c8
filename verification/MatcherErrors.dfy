/**
 Exactly which entities the matcher can throw on, from the properties of the entity to the
 outcome of the comparison.
 */
module MatcherErrors {
  import opened Prelude
  import opened EntityMatcher

  // ---------------------------------------------------------------- one entity against one

  lemma FormatAllOne(props: seq<Prop>, other: Option<seq<Prop>>, relations: set<string>, parse: string -> Option<int>)
    requires Formatted(props, other, relations, parse).Ok?
    ensures FormatAll([props], other, relations, parse) ==
            Ok([Obj(PLAIN, Formatted(props, other, relations, parse).value)])
  {
    var entities, x := [props], Obj(PLAIN, Formatted(props, other, relations, parse).value);
    assert entities[..|entities| - 1] == [] && entities[|entities| - 1] == props;
    assert FormatAll(entities[..|entities| - 1], other, relations, parse) == Ok([]);
    assert [] + [x] == [x];
  }

  /** With one entity on each side the matcher is the comparison of the two as formatted. */
  lemma ComparedOne(a: seq<Prop>, b: seq<Prop>, relations: set<string>, parse: string -> Option<int>)
    ensures Formatted(a, Some(b), relations, parse).Ok? && Formatted(b, Some(a), relations, parse).Ok?
    ensures Compared([a], [b], relations, parse) ==
            ValueCompare(Obj(PLAIN, Formatted(a, Some(b), relations, parse).value),
                         Obj(PLAIN, Formatted(b, Some(a), relations, parse).value))
  {
    FormatThrowsIffStringMeetsNothing(a, Some(b), relations, parse);
    FormatThrowsIffStringMeetsNothing(b, Some(a), relations, parse);
    FormatAllOne(a, Some(b), relations, parse);
    FormatAllOne(b, Some(a), relations, parse);
    SearchOneByOne(Obj(PLAIN, Formatted(a, Some(b), relations, parse).value),
      Obj(PLAIN, Formatted(b, Some(a), relations, parse).value));
  }

  lemma SearchOneByOne(x: JsValue, y: JsValue)
    ensures SearchAll([x], [y]) == ValueCompare(x, y)
  {
    assert SearchOne([x], y) == ValueCompare(x, y) by {
      assert [x][1..] == [];
    }
    assert [y][1..] == [];
  }

  // ---------------------------------------------------------------- formatting that changes nothing

  /** The properties that are not skipped. */
  function Kept(props: seq<Prop>, relations: set<string>): (kept: seq<Prop>)
    ensures forall k :: 0 <= k < |kept| ==> kept[k] in props && !IsSkipProperty(kept[k], relations)
    ensures forall p :: p in props && !IsSkipProperty(p, relations) ==> p in kept
  {
    if props == [] then []
    else
      var last := props[|props| - 1];
      var front := Kept(props[..|props| - 1], relations);
      assert props == props[..|props| - 1] + [last];
      if IsSkipProperty(last, relations) then front else front + [last]
  }

  /** No string meets a date. */
  predicate StringsStay(props: seq<Prop>, other: seq<Prop>) {
    forall i :: 0 <= i < |props| && props[i].value.Str? ==> !Lookup(other, props[i].key).Date?
  }

  lemma {:induction false} FormattedIsKept(props: seq<Prop>, other: seq<Prop>, relations: set<string>,
        parse: string -> Option<int>)
    requires StringsStay(Kept(props, relations), other)
    ensures Formatted(props, Some(other), relations, parse) == Ok(Kept(props, relations))
  {
    if props != [] {
      var front, last := props[..|props| - 1], props[|props| - 1];
      var kept := Kept(front, relations);
      assert forall i :: 0 <= i < |kept| ==> Kept(props, relations)[i] == kept[i];
      FormattedIsKept(front, other, relations, parse);
      if !IsSkipProperty(last, relations) {
        assert Kept(props, relations)[|kept|] == last;
      }
    }
  }

  lemma {:induction false} AllAreKept(props: seq<Prop>, relations: set<string>)
    requires forall i :: 0 <= i < |props| ==> !IsSkipProperty(props[i], relations)
    ensures Kept(props, relations) == props
  {
    if props != [] {
      var front, last := props[..|props| - 1], props[|props| - 1];
      assert forall i :: 0 <= i < |front| ==> front[i] == props[i];
      AllAreKept(front, relations);
      FrontAndLast(props);
    }
  }

  lemma FrontAndLast(props: seq<Prop>)
    requires props != []
    ensures props == props[..|props| - 1] + [props[|props| - 1]]
  {}

  lemma KeptIsWellFormed(kind: ObjectKind, props: seq<Prop>, relations: set<string>)
    requires WellFormed(Obj(kind, props))
    ensures WellFormed(Obj(PLAIN, Kept(props, relations)))
  {
    KeptIsDistinct(props, relations);
  }

  lemma {:induction false} KeptIsDistinct(props: seq<Prop>, relations: set<string>)
    requires DistinctKeys(props)
    ensures DistinctKeys(Kept(props, relations))
  {
    if props != [] {
      var front, last := props[..|props| - 1], props[|props| - 1];
      FrontIsDistinct(props);
      KeptIsDistinct(front, relations);
      forall p | p in front
        ensures p.key != last.key
      {
        var i :| 0 <= i < |front| && front[i] == p;
        assert props[i] == p;
      }
    }
  }

  // ---------------------------------------------------------------- when it can throw

  /** A property that is not skipped and holds a date or a plain object. */
  predicate IsNested(p: Prop, relations: set<string>) {
    !IsSkipProperty(p, relations) && (p.value.Date? || p.value.Obj?)
  }

  /** An entity with such a property has a partner on which the matcher throws: itself as
      formatted, with the first such property under another key. */
  lemma MatcherThrows(a: seq<Prop>, relations: set<string>, parse: string -> Option<int>) returns (b: seq<Prop>)
    requires WellFormed(Obj(ENTITY, a)) && exists i :: 0 <= i < |a| && IsNested(a[i], relations)
    ensures WellFormed(Obj(ENTITY, b)) && Compared([a], [b], relations, parse) == Err(TypeError)
  {
    var i :| 0 <= i < |a| && IsNested(a[i], relations);
    var x := Obj(PLAIN, Kept(a, relations));
    KeptIsWellFormed(ENTITY, a, relations);
    assert a[i] in x.props;
    var y, m, key := PartnerThrows(x, relations + {"created_at", "updated_at"});
    b := y.props;
    PartnerIsFormatted(a, x.props, b, m, key, relations, parse);
    ComparedOne(a, b, relations, parse);
  }

  /** Formatting leaves both as they are. */
  lemma PartnerIsFormatted(a: seq<Prop>, x: seq<Prop>, b: seq<Prop>, m: nat, key: string, relations: set<string>,
        parse: string -> Option<int>)
    requires DistinctKeys(a) && x == Kept(a, relations) && m < |x| && b == Renamed(x, m, key)
    requires CanThrow(x[m].value) && key !in relations + {"created_at", "updated_at"}
    requires forall j :: 0 <= j < |x| && j != m ==> Lookup(b, x[j].key) == x[j].value
    ensures Formatted(a, Some(b), relations, parse) == Ok(x) && Formatted(b, Some(a), relations, parse) == Ok(b)
  {
    forall j | 0 <= j < |x|
      ensures !IsSkipProperty(b[j], relations)
    {
      assert !IsSkipProperty(x[j], relations);
    }
    AllAreKept(b, relations);
    FormattedIsKept(a, b, relations, parse);
    forall j | 0 <= j < |b| && b[j].value.Str?
      ensures !Lookup(a, b[j].key).Date?
    {
      assert j != m && b[j] == x[j] && x[j] in a;
      var n :| 0 <= n < |a| && a[n] == x[j];
      LookupAt(a, n);
    }
    FormattedIsKept(b, a, relations, parse);
  }

  /** What formatting makes of an entity without such a property: a date only where the
      other one has a date. */
  ghost predicate DatesMeetDates(kept: seq<Prop>, other: seq<Prop>, relations: set<string>) {
    forall k :: 0 <= k < |kept| ==>
      && !IsSkipProperty(kept[k], relations)
      && (CanThrow(kept[k].value) ==> kept[k].value.Date? && Lookup(other, kept[k].key).Date?)
  }

  lemma {:induction false} FormattedDatesMeetDates(props: seq<Prop>, other: seq<Prop>, relations: set<string>,
        parse: string -> Option<int>)
    requires forall i :: 0 <= i < |props| ==> !IsNested(props[i], relations)
    requires Formatted(props, Some(other), relations, parse).Ok?
    ensures DatesMeetDates(Formatted(props, Some(other), relations, parse).value, other, relations)
  {
    if props != [] {
      var front, last := props[..|props| - 1], props[|props| - 1];
      assert forall i :: 0 <= i < |front| ==> front[i] == props[i];
      FormattedDatesMeetDates(front, other, relations, parse);
      if !IsSkipProperty(last, relations) {
        FormatPropKeeps(last, Some(other), relations, parse);
      }
    }
  }

  /** A date that is not skipped is still there in the formatted entity. */
  lemma {:induction false} DateIsKept(props: seq<Prop>, i: nat, other: Option<seq<Prop>>, relations: set<string>,
        parse: string -> Option<int>)
    requires Formatted(props, other, relations, parse).Ok? && i < |props|
    requires props[i].value.Date? && !IsSkipProperty(props[i], relations)
    ensures props[i] in Formatted(props, other, relations, parse).value
    decreases |props|
  {
    if i < |props| - 1 {
      assert props[..|props| - 1][i] == props[i];
      DateIsKept(props[..|props| - 1], i, other, relations, parse);
    }
  }

  lemma DateIsFound(props: seq<Prop>, key: string, other: Option<seq<Prop>>, relations: set<string>,
        parse: string -> Option<int>)
    requires Formatted(props, other, relations, parse).Ok? && DistinctKeys(props)
    requires Lookup(props, key).Date? && key !in relations + {"created_at", "updated_at"}
    ensures Lookup(Formatted(props, other, relations, parse).value, key).Date?
  {
    assert HasKey(props, key);
    var i :| 0 <= i < |props| && props[i].key == key;
    LookupAt(props, i);
    DateIsKept(props, i, other, relations, parse);
    FormattedIsDistinct(props, other, relations, parse);
    var kept := Formatted(props, other, relations, parse).value;
    var k :| 0 <= k < |kept| && kept[k] == props[i];
    LookupAt(kept, k);
  }

  lemma {:induction false} DatesNeverThrow(props: seq<Prop>, b: JsValue)
    requires forall k :: 0 <= k < |props| ==>
             CanThrow(props[k].value) ==> props[k].value.Date? && Property(b, props[k].key).Date?
    ensures CompareProps(props, b).Ok?
  {
    if props != [] {
      DatesNeverThrow(props[1..], b);
    }
  }

  lemma MatcherNeverThrows(a: seq<Prop>, b: seq<Prop>, relations: set<string>, parse: string -> Option<int>)
    requires DistinctKeys(b) && forall i :: 0 <= i < |a| ==> !IsNested(a[i], relations)
    ensures Compared([a], [b], relations, parse).Ok?
  {
    ComparedOne(a, b, relations, parse);
    var x, y := Formatted(a, Some(b), relations, parse).value, Formatted(b, Some(a), relations, parse).value;
    FormattedDatesMeetDates(a, b, relations, parse);
    forall k | 0 <= k < |x| && CanThrow(x[k].value)
      ensures x[k].value.Date? && Lookup(y, x[k].key).Date?
    {
      DateIsFound(b, x[k].key, Some(a), relations, parse);
    }
    DatesNeverThrow(x, Obj(PLAIN, y));
  }

  /** Some entity makes the matcher throw, where it should only fail, if and only if this one
      has a property that is not skipped and holds a date or a plain object. */
  lemma MatcherThrowsIffNested(a: seq<Prop>, relations: set<string>, parse: string -> Option<int>)
    requires WellFormed(Obj(ENTITY, a))
    ensures (exists b :: WellFormed(Obj(ENTITY, b)) && Compared([a], [b], relations, parse).Err?) <==>
            exists i :: 0 <= i < |a| && IsNested(a[i], relations)
  {
    if exists i :: 0 <= i < |a| && IsNested(a[i], relations) {
      var b := MatcherThrows(a, relations, parse);
    } else {
      forall b | WellFormed(Obj(ENTITY, b))
        ensures Compared([a], [b], relations, parse).Ok?
      {
        MatcherNeverThrows(a, b, relations, parse);
      }
    }
  }
}
