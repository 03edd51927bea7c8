/**
 The test matcher that compares lists of entities: a recursive comparison of values that
 looks at one side's keys only, and a search that looks for one side's entities only.
 */
module EntityMatcher {
  import opened Prelude
  import opened Text

  // ---------------------------------------------------------------- JavaScript values

  datatype ObjectKind = PLAIN | ARRAY | ENTITY

  /** `Date` holds `getTime()`, or nothing for an invalid date, whose time is NaN. The
      properties of an object are in the order in which `for … in` visits them. */
  datatype JsValue =
    | Undefined
    | Null
    | Bool(boolean: bool)
    | Num(number: int)
    | Str(text: string)
    | Fun(id: nat)
    | Date(time: Option<int>)
    | Obj(kind: ObjectKind, props: seq<Prop>)

  datatype Prop = Prop(key: string, value: JsValue)

  datatype JsError = TypeError

  predicate HasKey(props: seq<Prop>, key: string) {
    exists i :: 0 <= i < |props| && props[i].key == key
  }

  function Lookup(props: seq<Prop>, key: string): (v: JsValue)
    ensures HasKey(props, key) ==> exists i :: 0 <= i < |props| && props[i].key == key && v == props[i].value
    ensures !HasKey(props, key) ==> v == Undefined
  {
    if props == [] then Undefined
    else if props[0].key == key then props[0].value
    else
      var v := Lookup(props[1..], key);
      assert forall i :: 0 <= i < |props[1..]| ==> props[1..][i] == props[i + 1];
      v
  }

  lemma LookupAt(props: seq<Prop>, i: nat)
    requires DistinctKeys(props) && i < |props|
    ensures Lookup(props, props[i].key) == props[i].value
  {
    assert HasKey(props, props[i].key);
  }

  ghost function Keys(props: seq<Prop>): set<string> {
    set i | 0 <= i < |props| :: props[i].key
  }

  predicate DistinctKeys(props: seq<Prop>) {
    forall i, j :: 0 <= i < |props| && 0 <= j < |props| && props[i].key == props[j].key ==> i == j
  }

  /** No object has a key twice, at any depth. */
  predicate WellFormed(v: JsValue) {
    v.Obj? ==> DistinctKeys(v.props) && forall i :: 0 <= i < |v.props| ==> WellFormed(v.props[i].value)
  }

  // ---------------------------------------------------------------- valueCompare

  /** `Object.keys(v).length` */
  function KeyCount(v: JsValue): Result<nat, JsError> {
    match v
    case Undefined => Err(TypeError)
    case Null => Err(TypeError)
    case Str(s) => Ok(|s|)
    case Obj(_, props) => Ok(|props|)
    case _ => Ok(0)
  }

  /** `v[key]`; a string has its characters as properties. */
  function Property(v: JsValue, key: string): JsValue {
    match v
    case Obj(_, props) => Lookup(props, key)
    case Str(s) => Character(s, key, 0)
    case _ => Undefined
  }

  function Character(s: string, key: string, i: nat): JsValue
    requires i <= |s|
    decreases |s| - i
  {
    if i == |s| then Undefined
    else if key == Decimal(i) then Str([s[i]])
    else Character(s, key, i + 1)
  }

  function ValueCompare(a: JsValue, b: JsValue): Result<bool, JsError>
    decreases a, 1
  {
    match a
    case Date(time) => if b.Date? then Ok(time.Some? && time == b.time) else Err(TypeError)
    case Null => Err(TypeError)
    case Obj(_, props) =>
      var count :- KeyCount(b);
      if |props| != count then Ok(false) else CompareProps(props, b)
    case _ => Ok(a == b)
  }

  function CompareProps(props: seq<Prop>, b: JsValue): Result<bool, JsError>
    decreases props, 0
  {
    if props == [] then Ok(true)
    else
      var isEqual :- ValueCompare(props[0].value, Property(b, props[0].key));
      if !isEqual then Ok(false) else CompareProps(props[1..], b)
  }

  // ---------------------------------------------------------------- what it decides

  /** Structural equality: the same keys with the same values under them. An invalid date
      is not the same as anything. */
  ghost predicate Same(a: JsValue, b: JsValue)
    decreases a
  {
    match a
    case Date(time) => time.Some? && b == a
    case Obj(_, props) =>
      && b.Obj?
      && Keys(props) == Keys(b.props)
      && forall i :: 0 <= i < |props| ==> Same(props[i].value, Lookup(b.props, props[i].key))
    case _ => a == b
  }

  /** The shapes agree as far as the comparison goes: a date meets a date, an object an
      object, no null is compared, and a value whose key is missing on the other side is
      neither a date nor an object nor undefined. */
  predicate Comparable(a: JsValue, b: JsValue)
    decreases a
  {
    match a
    case Null => false
    case Date(_) => b.Date?
    case Obj(_, props) =>
      && b.Obj?
      && forall i :: 0 <= i < |props| ==>
           if HasKey(b.props, props[i].key) then Comparable(props[i].value, Lookup(b.props, props[i].key))
           else !props[i].value.Undefined? && !props[i].value.Null? && !props[i].value.Date? && !props[i].value.Obj?
    case _ => true
  }

  lemma {:induction false} KeyCountIsCardinality(props: seq<Prop>)
    requires DistinctKeys(props)
    ensures |Keys(props)| == |props|
  {
    if props == [] {
      assert Keys(props) == {};
    } else {
      var rest := props[..|props| - 1];
      KeyCountIsCardinality(rest);
      var last := props[|props| - 1].key;
      assert last !in Keys(rest);
      assert Keys(props) == Keys(rest) + {last};
    }
  }

  /** A subset of the same size is the whole set. */
  lemma EqualSizeSubset<T>(a: set<T>, b: set<T>)
    requires a <= b && |a| == |b|
    ensures a == b
  {
    assert b == a + (b - a) && a !! b - a;
    assert |b| == |a| + |b - a|;
    assert b - a == {};
  }

  /** Every key of `props` occurs among those of `other`, with the same value under it. */
  ghost predicate Included(props: seq<Prop>, other: seq<Prop>) {
    forall i :: 0 <= i < |props| ==> HasKey(other, props[i].key) && Same(props[i].value, Lookup(other, props[i].key))
  }

  lemma IncludedFromFirst(props: seq<Prop>, other: seq<Prop>)
    requires props != []
    ensures Included(props, other) <==>
            HasKey(other, props[0].key) && Same(props[0].value, Lookup(other, props[0].key)) &&
              Included(props[1..], other)
  {
    assert props == [props[0]] + props[1..];
  }

  /** One-way inclusion of the keys and equal counts give equal key sets. */
  lemma InclusionIsEquality(a: JsValue, b: JsValue)
    requires a.Obj? && b.Obj? && DistinctKeys(a.props) && DistinctKeys(b.props)
    ensures Same(a, b) <==> |a.props| == |b.props| && Included(a.props, b.props)
  {
    KeyCountIsCardinality(a.props);
    KeyCountIsCardinality(b.props);
    if |a.props| == |b.props| && Included(a.props, b.props) {
      assert Keys(a.props) <= Keys(b.props);
      EqualSizeSubset(Keys(a.props), Keys(b.props));
    }
    if Same(a, b) {
      forall i | 0 <= i < |a.props|
        ensures HasKey(b.props, a.props[i].key)
      {
        assert a.props[i].key in Keys(b.props);
      }
    }
  }

  lemma LookupIsWellFormed(props: seq<Prop>, key: string)
    requires forall i :: 0 <= i < |props| ==> WellFormed(props[i].value)
    ensures WellFormed(Lookup(props, key))
  {
    if !HasKey(props, key) { assert Lookup(props, key) == Undefined; }
  }

  /** On comparable values the comparison throws nothing and decides structural equality,
      although it only walks over the keys of its first argument. */
  lemma {:induction false} ValueCompareDecidesSame(a: JsValue, b: JsValue)
    requires WellFormed(a) && WellFormed(b) && Comparable(a, b)
    ensures ValueCompare(a, b) == Ok(Same(a, b))
    decreases a, 1
  {
    if a.Obj? {
      InclusionIsEquality(a, b);
      if |a.props| == |b.props| {
        ComparePropsDecidesIncluded(a, a.props, b);
      }
    }
  }

  lemma {:induction false} ComparePropsDecidesIncluded(a: JsValue, props: seq<Prop>, b: JsValue)
    requires a.Obj? && b.Obj? && WellFormed(b)
    requires forall i :: 0 <= i < |props| ==> props[i] < a && WellFormed(props[i].value)
    requires forall i :: 0 <= i < |props| ==>
               if HasKey(b.props, props[i].key) then Comparable(props[i].value, Lookup(b.props, props[i].key))
               else !props[i].value.Undefined? && !props[i].value.Null? && !props[i].value.Date? && !props[i].value.Obj?
    ensures CompareProps(props, b) == Ok(Included(props, b.props))
    decreases a, 0, |props|
  {
    if props != [] {
      var p := props[0];
      assert HasKey(b.props, p.key) ==> Comparable(p.value, Lookup(b.props, p.key));
      if HasKey(b.props, p.key) {
        LookupIsWellFormed(b.props, p.key);
        ValueCompareDecidesSame(p.value, Lookup(b.props, p.key));
      }
      ComparePropsDecidesIncluded(a, props[1..], b);
      IncludedFromFirst(props, b.props);
    }
  }

  /** Without equal shapes it decides something else: an object without keys passes for a
      number, and a key holding undefined passes for a missing one. */
  lemma ShapesMatter()
    ensures ValueCompare(Obj(PLAIN, []), Num(5)) == Ok(true) && !Same(Obj(PLAIN, []), Num(5))
    ensures var a, b := Obj(PLAIN, [Prop("a", Undefined)]), Obj(PLAIN, [Prop("b", Num(1))]);
            ValueCompare(a, b) == Ok(true) && !Same(a, b)
    ensures ValueCompare(Obj(PLAIN, [Prop("a", Obj(PLAIN, []))]), Obj(PLAIN, [Prop("b", Num(1))])) == Err(TypeError)
  {
    var a, b := Obj(PLAIN, [Prop("a", Undefined)]), Obj(PLAIN, [Prop("b", Num(1))]);
    assert "a" != "b";
    assert !HasKey(b.props, "a");
    assert a.props[1..] == [];
    assert CompareProps(a.props, b) == Ok(true);
    assert a.props[0].key in Keys(a.props) && "a" !in Keys(b.props);
    var c := Obj(PLAIN, [Prop("a", Obj(PLAIN, []))]);
    assert ValueCompare(c.props[0].value, Property(b, "a")) == Err(TypeError);
    assert CompareProps(c.props, b) == Err(TypeError);
  }

  // ---------------------------------------------------------------- exactly which objects compare well

  /** A value whose comparison can throw: with a missing one it does. */
  predicate CanThrow(v: JsValue) {
    v.Null? || v.Date? || v.Obj?
  }

  /** Some name is longer than all of these, and so none of them. */
  lemma {:induction false} SomeNameIsLonger(names: set<string>) returns (key: string)
    ensures forall name :: name in names ==> |name| < |key|
  {
    if names == {} {
      key := "x";
    } else {
      var name :| name in names;
      var rest := SomeNameIsLonger(names - {name});
      key := name + rest + "x";
    }
  }

  lemma KeyIsListed(props: seq<Prop>, key: string)
    ensures HasKey(props, key) <==> key in Keys(props)
  {}

  /** The same properties with the key of number `i` replaced. */
  function Renamed(props: seq<Prop>, i: nat, key: string): seq<Prop>
    requires i < |props|
  {
    props[i := Prop(key, props[i].value)]
  }

  lemma RenamedLookups(props: seq<Prop>, i: nat, key: string)
    requires i < |props| && DistinctKeys(props) && !HasKey(props, key)
    ensures var other := Renamed(props, i, key);
            && DistinctKeys(other) && Keys(other) != Keys(props)
            && Lookup(other, props[i].key) == Undefined
            && forall j :: 0 <= j < |props| && j != i ==> Lookup(other, props[j].key) == props[j].value
  {
    var other := Renamed(props, i, key);
    assert forall j :: 0 <= j < |props| ==> other[j].key == if j == i then key else props[j].key;
    assert !HasKey(other, props[i].key);
    assert props[i].key in Keys(props) && props[i].key !in Keys(other);
    forall j | 0 <= j < |props| && j != i
      ensures Lookup(other, props[j].key) == props[j].value
    {
      LookupAt(other, j);
    }
  }

  /** An object like `a` in which property `i` has another key, none of `names` either. */
  lemma WithoutKey(a: JsValue, i: nat, names: set<string>) returns (b: JsValue, key: string)
    requires WellFormed(a) && a.Obj? && i < |a.props|
    ensures b == Obj(a.kind, Renamed(a.props, i, key)) && key !in names
    ensures WellFormed(b) && !Same(a, b)
    ensures Lookup(b.props, a.props[i].key) == Undefined
    ensures forall j :: 0 <= j < |a.props| && j != i ==> Lookup(b.props, a.props[j].key) == a.props[j].value
  {
    key := SomeNameIsLonger(Keys(a.props) + names);
    KeyIsListed(a.props, key);
    RenamedLookups(a.props, i, key);
    b := Obj(a.kind, Renamed(a.props, i, key));
  }

  /** What comes before the first value that can throw compares well with itself. */
  lemma {:induction false} MissingKeyThrows(a: JsValue, b: JsValue, i: nat, n: nat)
    requires a.Obj? && b.Obj? && n <= i < |a.props| && CanThrow(a.props[i].value)
    requires forall j :: 0 <= j < i ==>
             !CanThrow(a.props[j].value) && Lookup(b.props, a.props[j].key) == a.props[j].value
    requires Lookup(b.props, a.props[i].key) == Undefined
    ensures CompareProps(a.props[n..], b) == Err(TypeError)
    decreases i - n
  {
    assert a.props[n..][0] == a.props[n] && a.props[n..][1..] == a.props[n + 1..];
    if n < i {
      MissingKeyThrows(a, b, i, n + 1);
    }
  }

  lemma {:induction false} MissingUndefinedPasses(a: JsValue, b: JsValue, i: nat, n: nat)
    requires a.Obj? && b.Obj? && i < |a.props| && n <= |a.props| && a.props[i].value.Undefined?
    requires forall j :: 0 <= j < |a.props| ==>
               !CanThrow(a.props[j].value) && (j != i ==> Lookup(b.props, a.props[j].key) == a.props[j].value)
    requires Lookup(b.props, a.props[i].key) == Undefined
    ensures CompareProps(a.props[n..], b) == Ok(true)
    decreases |a.props| - n
  {
    if n < |a.props| {
      assert a.props[n..][0] == a.props[n] && a.props[n..][1..] == a.props[n + 1..];
      MissingUndefinedPasses(a, b, i, n + 1);
    }
  }

  lemma {:induction false} FirstThatCanThrow(props: seq<Prop>, n: nat) returns (i: nat)
    requires n <= |props| && exists j :: 0 <= j < n && CanThrow(props[j].value)
    ensures i < n && CanThrow(props[i].value) && forall j :: 0 <= j < i ==> !CanThrow(props[j].value)
  {
    if j :| 0 <= j < n - 1 && CanThrow(props[j].value) {
      i := FirstThatCanThrow(props, n - 1);
    } else {
      i := n - 1;
    }
  }

  /** An object with a null, a date or an object in it has a partner on which the comparison
      throws, although it should only say that the two differ: the first such value under
      another key, which can be chosen outside of `names`. */
  lemma PartnerThrows(a: JsValue, names: set<string>) returns (b: JsValue, i: nat, key: string)
    requires WellFormed(a) && a.Obj? && exists j :: 0 <= j < |a.props| && CanThrow(a.props[j].value)
    ensures i < |a.props| && b == Obj(a.kind, Renamed(a.props, i, key)) && key !in names
    ensures forall j :: 0 <= j < |a.props| && j != i ==> Lookup(b.props, a.props[j].key) == a.props[j].value
    ensures CanThrow(a.props[i].value)
    ensures WellFormed(b) && !Same(a, b) && ValueCompare(a, b) == Err(TypeError)
  {
    i := FirstThatCanThrow(a.props, |a.props|);
    b, key := WithoutKey(a, i, names);
    MissingKeyThrows(a, b, i, 0);
    assert a.props[0..] == a.props;
  }

  lemma {:induction false} FlatNeverThrows(props: seq<Prop>, b: JsValue)
    requires forall j :: 0 <= j < |props| ==> !CanThrow(props[j].value)
    ensures CompareProps(props, b).Ok?
  {
    if props != [] {
      FlatNeverThrows(props[1..], b);
    }
  }

  /** The comparison of an object can throw if and only if it has a null, a date or an
      object in it. */
  lemma ThrowsIffNested(a: JsValue)
    requires WellFormed(a) && a.Obj?
    ensures (exists b :: WellFormed(b) && b.Obj? && ValueCompare(a, b).Err?) <==>
            exists j :: 0 <= j < |a.props| && CanThrow(a.props[j].value)
  {
    if j :| 0 <= j < |a.props| && CanThrow(a.props[j].value) {
      var b, i, key := PartnerThrows(a, {});
    } else {
      forall b | WellFormed(b) && b.Obj?
        ensures ValueCompare(a, b).Ok?
      {
        FlatNeverThrows(a.props, b);
      }
    }
  }

  /** An undefined value is taken for a missing one. */
  lemma UndefinedIsMissed(a: JsValue, i: nat) returns (b: JsValue)
    requires WellFormed(a) && a.Obj? && i < |a.props| && a.props[i].value.Undefined?
    requires forall j :: 0 <= j < |a.props| ==> !CanThrow(a.props[j].value)
    ensures WellFormed(b) && b.Obj? && ValueCompare(a, b) == Ok(true) && !Same(a, b)
  {
    var key;
    b, key := WithoutKey(a, i, {});
    MissingUndefinedPasses(a, b, i, 0);
    assert a.props[0..] == a.props;
  }

  /** Over all partners, the comparison decides structural equality if and only if no value
      of the object is undefined, null, a date or an object. */
  lemma DecidesSameIffFlat(a: JsValue)
    requires WellFormed(a) && a.Obj?
    ensures (forall b :: WellFormed(b) && b.Obj? ==> ValueCompare(a, b) == Ok(Same(a, b))) <==>
            forall j :: 0 <= j < |a.props| ==> !a.props[j].value.Undefined? && !CanThrow(a.props[j].value)
  {
    if exists j :: 0 <= j < |a.props| && CanThrow(a.props[j].value) {
      var b, i, key := PartnerThrows(a, {});
    } else if i :| 0 <= i < |a.props| && a.props[i].value.Undefined? {
      var b := UndefinedIsMissed(a, i);
    } else {
      forall b | WellFormed(b) && b.Obj?
        ensures ValueCompare(a, b) == Ok(Same(a, b))
      {
        ValueCompareDecidesSame(a, b);
      }
    }
  }

  // ---------------------------------------------------------------- an equivalence

  /** No invalid date, at any depth. */
  predicate HasValidDates(v: JsValue) {
    match v
    case Date(time) => time.Some?
    case Obj(_, props) => forall i :: 0 <= i < |props| ==> HasValidDates(props[i].value)
    case _ => true
  }

  lemma {:induction false} SameReflexive(a: JsValue)
    requires WellFormed(a) && HasValidDates(a)
    ensures Same(a, a)
  {
    if a.Obj? {
      forall i | 0 <= i < |a.props|
        ensures Same(a.props[i].value, Lookup(a.props, a.props[i].key))
      {
        LookupAt(a.props, i);
        SameReflexive(a.props[i].value);
      }
    }
  }

  /** Where the key of `b`'s property `j` stands in `a`. */
  lemma MatchingKey(a: JsValue, b: JsValue, j: nat) returns (i: nat)
    requires a.Obj? && b.Obj? && DistinctKeys(b.props) && Same(a, b) && j < |b.props|
    ensures i < |a.props| && a.props[i].key == b.props[j].key && Same(a.props[i].value, b.props[j].value)
  {
    assert b.props[j].key in Keys(a.props);
    i :| 0 <= i < |a.props| && a.props[i].key == b.props[j].key;
    LookupAt(b.props, j);
  }

  lemma {:induction false} SameSymmetric(a: JsValue, b: JsValue)
    requires WellFormed(a) && WellFormed(b) && Same(a, b)
    ensures Same(b, a)
  {
    if a.Obj? {
      forall j | 0 <= j < |b.props|
        ensures Same(b.props[j].value, Lookup(a.props, b.props[j].key))
      {
        var i := MatchingKey(a, b, j);
        LookupAt(a.props, i);
        SameSymmetric(a.props[i].value, b.props[j].value);
      }
    }
  }

  lemma {:induction false} SameTransitive(a: JsValue, b: JsValue, c: JsValue)
    requires WellFormed(b) && WellFormed(c) && Same(a, b) && Same(b, c)
    ensures Same(a, c)
  {
    if a.Obj? {
      forall i | 0 <= i < |a.props|
        ensures Same(a.props[i].value, Lookup(c.props, a.props[i].key))
      {
        assert a.props[i].key in Keys(b.props);
        var j :| 0 <= j < |b.props| && b.props[j].key == a.props[i].key;
        LookupAt(b.props, j);
        assert Same(b.props[j].value, Lookup(c.props, b.props[j].key));
        LookupIsWellFormed(c.props, a.props[i].key);
        SameTransitive(a.props[i].value, b.props[j].value, Lookup(c.props, a.props[i].key));
      }
    }
  }

  // ---------------------------------------------------------------- entityFormat

  /** `relations` are the properties that the entity class declares as lists or entities. */
  predicate IsSkipProperty(p: Prop, relations: set<string>) {
    || (p.value.Obj? && p.value.kind != PLAIN)
    || p.value.Fun? || p.value.Null? || p.value.Undefined?
    || p.key == "created_at" || p.key == "updated_at"
    || p.key in relations
  }

  /** A kept property, with a string read as a date where the first entity of the other
      list has a date. There is no such entity when that list is empty. */
  function FormatProp(p: Prop, other: Option<seq<Prop>>, parse: string -> Option<int>): Result<Prop, JsError> {
    if !p.value.Str? then Ok(p)
    else if other.None? then Err(TypeError)
    else if Lookup(other.value, p.key).Date? then Ok(Prop(p.key, Date(parse(p.value.text))))
    else Ok(p)
  }

  function Formatted(props: seq<Prop>, other: Option<seq<Prop>>, relations: set<string>,
        parse: string -> Option<int>): Result<seq<Prop>, JsError>
  {
    if props == [] then Ok([])
    else
      var last := props[|props| - 1];
      var kept :- Formatted(props[..|props| - 1], other, relations, parse);
      if IsSkipProperty(last, relations) then Ok(kept)
      else
        var p :- FormatProp(last, other, parse);
        Ok(kept + [p])
  }

  method EntityFormat(props: seq<Prop>, other: Option<seq<Prop>>, relations: set<string>, parse: string -> Option<int>)
      returns (r: Result<seq<Prop>, JsError>)
    ensures r == Formatted(props, other, relations, parse)
  {
    var entity := [];
    for i := 0 to |props|
      invariant Formatted(props[..i], other, relations, parse) == Ok(entity)
    {
      assert props[..i + 1][..i] == props[..i];
      if IsSkipProperty(props[i], relations) {
        continue;
      }
      var p := FormatProp(props[i], other, parse);
      if p.Err? {
        FormatErrorLasts(props, i + 1, other, relations, parse);
        return Err(p.error);
      }
      entity := entity + [p.value];
    }
    assert props[..|props|] == props;
    return Ok(entity);
  }

  lemma {:induction false} FormatErrorLasts(props: seq<Prop>, n: nat, other: Option<seq<Prop>>,
        relations: set<string>, parse: string -> Option<int>)
    requires n <= |props| && Formatted(props[..n], other, relations, parse).Err?
    ensures Formatted(props, other, relations, parse) == Formatted(props[..n], other, relations, parse)
  {
    if n == |props| {
      assert props[..n] == props;
    } else {
      assert props[..|props| - 1][..n] == props[..n];
      FormatErrorLasts(props[..|props| - 1], n, other, relations, parse);
    }
  }

  lemma KeysOfAppend(props: seq<Prop>, p: Prop)
    ensures Keys(props + [p]) == Keys(props) + {p.key}
  {
    var all := props + [p];
    forall i | 0 <= i < |all|
      ensures all[i].key in Keys(props) + {p.key}
    {
      if i < |props| { assert all[i] == props[i] && props[i].key in Keys(props); }
    }
    forall i | 0 <= i < |props|
      ensures props[i].key in Keys(all)
    {
      assert all[i] == props[i];
    }
    assert all[|props|] == p && p.key in Keys(all);
  }

  /** Formatting throws if and only if a kept string meets an empty other list. */
  lemma {:induction false} FormatThrowsIffStringMeetsNothing(props: seq<Prop>, other: Option<seq<Prop>>,
        relations: set<string>, parse: string -> Option<int>)
    ensures Formatted(props, other, relations, parse).Err? <==>
            other.None? && exists i :: 0 <= i < |props| && props[i].value.Str? && !IsSkipProperty(props[i], relations)
  {
    if props != [] {
      var front, last := props[..|props| - 1], props[|props| - 1];
      FormatThrowsIffStringMeetsNothing(front, other, relations, parse);
      assert forall i :: 0 <= i < |front| ==> front[i] == props[i];
    }
  }

  ghost function KeptKeys(props: seq<Prop>, relations: set<string>): set<string> {
    set i | 0 <= i < |props| && !IsSkipProperty(props[i], relations) :: props[i].key
  }

  lemma KeptKeysOfAppend(front: seq<Prop>, last: Prop, relations: set<string>)
    ensures KeptKeys(front + [last], relations) ==
            KeptKeys(front, relations) + if IsSkipProperty(last, relations) then {} else {last.key}
  {
    var all := front + [last];
    forall i | 0 <= i < |front| && !IsSkipProperty(front[i], relations)
      ensures front[i].key in KeptKeys(all, relations)
    {
      assert all[i] == front[i];
    }
    assert all[|front|] == last;
    assert !IsSkipProperty(last, relations) ==> last.key in KeptKeys(all, relations);
    forall i | 0 <= i < |all| && !IsSkipProperty(all[i], relations) && i < |front|
      ensures all[i].key in KeptKeys(front, relations)
    {
      assert front[i] == all[i];
    }
  }

  lemma FormatPropKeeps(p: Prop, other: Option<seq<Prop>>, relations: set<string>, parse: string -> Option<int>)
    requires !IsSkipProperty(p, relations) && FormatProp(p, other, parse).Ok?
    ensures var kept := FormatProp(p, other, parse).value; kept.key == p.key && !IsSkipProperty(kept, relations)
  {}

  lemma {:induction false} FormattedKeepsNoneToSkip(props: seq<Prop>, other: Option<seq<Prop>>, relations: set<string>,
        parse: string -> Option<int>)
    requires Formatted(props, other, relations, parse).Ok?
    ensures var kept := Formatted(props, other, relations, parse).value;
            forall k :: 0 <= k < |kept| ==> !IsSkipProperty(kept[k], relations)
  {
    if props != [] {
      FormattedKeepsNoneToSkip(props[..|props| - 1], other, relations, parse);
      if !IsSkipProperty(props[|props| - 1], relations) {
        FormatPropKeeps(props[|props| - 1], other, relations, parse);
      }
    }
  }

  lemma {:induction false} FormattedKeepsKeys(props: seq<Prop>, other: Option<seq<Prop>>, relations: set<string>,
        parse: string -> Option<int>)
    requires Formatted(props, other, relations, parse).Ok?
    ensures Keys(Formatted(props, other, relations, parse).value) == KeptKeys(props, relations)
  {
    if props != [] {
      var front, last := props[..|props| - 1], props[|props| - 1];
      FormattedKeepsKeys(front, other, relations, parse);
      assert props == front + [last];
      KeptKeysOfAppend(front, last, relations);
      if !IsSkipProperty(last, relations) {
        KeysOfAppend(Formatted(front, other, relations, parse).value, FormatProp(last, other, parse).value);
        FormatPropKeeps(last, other, relations, parse);
      }
    }
  }

  lemma DistinctAppend(kept: seq<Prop>, p: Prop, props: seq<Prop>, relations: set<string>)
    requires props != [] && DistinctKeys(props) && p.key == props[|props| - 1].key
    requires DistinctKeys(kept) && Keys(kept) == KeptKeys(props[..|props| - 1], relations)
    ensures DistinctKeys(kept + [p])
  {
    var front := props[..|props| - 1];
    forall i | 0 <= i < |kept|
      ensures kept[i].key != p.key
    {
      assert kept[i].key in KeptKeys(front, relations);
      var j :| 0 <= j < |front| && front[j].key == kept[i].key;
      assert props[j] == front[j];
    }
  }

  lemma FrontIsDistinct(props: seq<Prop>)
    requires props != [] && DistinctKeys(props)
    ensures DistinctKeys(props[..|props| - 1])
  {
    assert forall i :: 0 <= i < |props| - 1 ==> props[..|props| - 1][i] == props[i];
  }

  /** No key is kept twice. */
  lemma {:induction false} FormattedIsDistinct(props: seq<Prop>, other: Option<seq<Prop>>, relations: set<string>,
        parse: string -> Option<int>)
    requires Formatted(props, other, relations, parse).Ok? && DistinctKeys(props)
    ensures DistinctKeys(Formatted(props, other, relations, parse).value)
  {
    if props != [] {
      var front, last := props[..|props| - 1], props[|props| - 1];
      FrontIsDistinct(props);
      FormattedIsDistinct(front, other, relations, parse);
      if !IsSkipProperty(last, relations) {
        FormattedKeepsKeys(front, other, relations, parse);
        FormatPropKeeps(last, other, relations, parse);
        var kept, p := Formatted(front, other, relations, parse).value, FormatProp(last, other, parse).value;
        DistinctAppend(kept, p, props, relations);
      }
    }
  }

  /** A formatted entity keeps exactly the properties that are not skipped, each under its
      key and once: it is flat, without null, undefined, lists and entities. */
  lemma FormattedIsFlat(props: seq<Prop>, other: Option<seq<Prop>>, relations: set<string>,
        parse: string -> Option<int>)
    requires Formatted(props, other, relations, parse).Ok?
    ensures var kept := Formatted(props, other, relations, parse).value;
            && Keys(kept) == KeptKeys(props, relations)
            && (forall k :: 0 <= k < |kept| ==> !IsSkipProperty(kept[k], relations))
            && (DistinctKeys(props) ==> DistinctKeys(kept))
  {
    FormattedKeepsKeys(props, other, relations, parse);
    FormattedKeepsNoneToSkip(props, other, relations, parse);
    if DistinctKeys(props) {
      FormattedIsDistinct(props, other, relations, parse);
    }
  }

  // ---------------------------------------------------------------- toEntityCompare

  function First(entities: seq<seq<Prop>>): Option<seq<Prop>> {
    if entities == [] then None else Some(entities[0])
  }

  function FormatAll(entities: seq<seq<Prop>>, other: Option<seq<Prop>>, relations: set<string>,
        parse: string -> Option<int>): Result<seq<JsValue>, JsError>
  {
    if entities == [] then Ok([])
    else
      var front :- FormatAll(entities[..|entities| - 1], other, relations, parse);
      var last :- Formatted(entities[|entities| - 1], other, relations, parse);
      Ok(front + [Obj(PLAIN, last)])
  }

  lemma {:induction false} FormatAllErrorLasts(entities: seq<seq<Prop>>, n: nat, other: Option<seq<Prop>>,
        relations: set<string>, parse: string -> Option<int>)
    requires n <= |entities| && FormatAll(entities[..n], other, relations, parse).Err?
    ensures FormatAll(entities, other, relations, parse) == FormatAll(entities[..n], other, relations, parse)
  {
    if n == |entities| {
      assert entities[..n] == entities;
    } else {
      assert entities[..|entities| - 1][..n] == entities[..n];
      FormatAllErrorLasts(entities[..|entities| - 1], n, other, relations, parse);
    }
  }

  method FormatEntities(entities: seq<seq<Prop>>, other: Option<seq<Prop>>, relations: set<string>,
        parse: string -> Option<int>)
      returns (r: Result<seq<JsValue>, JsError>)
    ensures r == FormatAll(entities, other, relations, parse)
  {
    var formatted := [];
    for i := 0 to |entities|
      invariant FormatAll(entities[..i], other, relations, parse) == Ok(formatted)
    {
      assert entities[..i + 1][..i] == entities[..i];
      var entity := EntityFormat(entities[i], other, relations, parse);
      if entity.Err? {
        FormatAllErrorLasts(entities, i + 1, other, relations, parse);
        return Err(entity.error);
      }
      formatted := formatted + [Obj(PLAIN, entity.value)];
    }
    assert entities[..|entities|] == entities;
    return Ok(formatted);
  }

  /** The search for one expected entity stops at the first match and at the first throw. */
  function SearchOne(entitiesA: seq<JsValue>, entityB: JsValue): Result<bool, JsError> {
    if entitiesA == [] then Ok(false)
    else
      var isExists :- ValueCompare(entitiesA[0], entityB);
      if isExists then Ok(true) else SearchOne(entitiesA[1..], entityB)
  }

  function SearchAll(entitiesA: seq<JsValue>, entitiesB: seq<JsValue>): Result<bool, JsError> {
    if entitiesB == [] then Ok(true)
    else
      var isExists :- SearchOne(entitiesA, entitiesB[0]);
      if isExists then SearchAll(entitiesA, entitiesB[1..]) else Ok(false)
  }

  function Compared(actual: seq<seq<Prop>>, data: seq<seq<Prop>>, relations: set<string>,
        parse: string -> Option<int>): Result<bool, JsError>
  {
    var entitiesA :- FormatAll(actual, First(data), relations, parse);
    var entitiesB :- FormatAll(data, First(actual), relations, parse);
    if |actual| != |data| then Ok(false) else SearchAll(entitiesA, entitiesB)
  }

  method ToEntityCompare(actual: seq<seq<Prop>>, data: seq<seq<Prop>>, relations: set<string>,
        parse: string -> Option<int>)
      returns (r: Result<bool, JsError>)
    ensures r == Compared(actual, data, relations, parse)
  {
    var entitiesA :- FormatEntities(actual, First(data), relations, parse);
    var entitiesB :- FormatEntities(data, First(actual), relations, parse);
    if |actual| != |data| {
      return Ok(false);
    }
    for j := 0 to |entitiesB|
      invariant SearchAll(entitiesA, entitiesB[j..]) == SearchAll(entitiesA, entitiesB)
    {
      assert entitiesB[j..][1..] == entitiesB[j + 1..];
      var isExists := false;
      for i := 0 to |entitiesA|
        invariant !isExists && SearchOne(entitiesA[i..], entitiesB[j]) == SearchOne(entitiesA, entitiesB[j])
      {
        assert entitiesA[i..][1..] == entitiesA[i + 1..];
        isExists :- ValueCompare(entitiesA[i], entitiesB[j]);
        if isExists {
          break;
        }
      }
      if !isExists {
        return Ok(false);
      }
    }
    return Ok(true);
  }

  /** Every pair that the search may compare is comparable. */
  ghost predicate AllComparable(entitiesA: seq<JsValue>, entitiesB: seq<JsValue>) {
    && (forall i :: 0 <= i < |entitiesA| ==> WellFormed(entitiesA[i]))
    && (forall j :: 0 <= j < |entitiesB| ==> WellFormed(entitiesB[j]))
    && (forall i, j :: 0 <= i < |entitiesA| && 0 <= j < |entitiesB| ==> Comparable(entitiesA[i], entitiesB[j]))
  }

  ghost predicate Found(entitiesA: seq<JsValue>, entityB: JsValue) {
    exists i :: 0 <= i < |entitiesA| && Same(entitiesA[i], entityB)
  }

  /** Every expected entity is found among the actual ones. Nothing is asked the other way. */
  ghost predicate AllFound(entitiesA: seq<JsValue>, entitiesB: seq<JsValue>) {
    forall j :: 0 <= j < |entitiesB| ==> Found(entitiesA, entitiesB[j])
  }

  lemma {:induction false} SearchOneDecidesFound(entitiesA: seq<JsValue>, entityB: JsValue)
    requires WellFormed(entityB) && forall i :: 0 <= i < |entitiesA| ==>
             WellFormed(entitiesA[i]) && Comparable(entitiesA[i], entityB)
    ensures SearchOne(entitiesA, entityB) == Ok(Found(entitiesA, entityB))
  {
    if entitiesA != [] {
      ValueCompareDecidesSame(entitiesA[0], entityB);
      SearchOneDecidesFound(entitiesA[1..], entityB);
      assert Found(entitiesA, entityB) <==> Same(entitiesA[0], entityB) || Found(entitiesA[1..], entityB) by {
        assert entitiesA == [entitiesA[0]] + entitiesA[1..];
      }
    }
  }

  lemma {:induction false} SearchAllDecidesAllFound(entitiesA: seq<JsValue>, entitiesB: seq<JsValue>)
    requires AllComparable(entitiesA, entitiesB)
    ensures SearchAll(entitiesA, entitiesB) == Ok(AllFound(entitiesA, entitiesB))
  {
    if entitiesB != [] {
      SearchOneDecidesFound(entitiesA, entitiesB[0]);
      SearchAllDecidesAllFound(entitiesA, entitiesB[1..]);
      assert AllFound(entitiesA, entitiesB) <==>
             Found(entitiesA, entitiesB[0]) && AllFound(entitiesA, entitiesB[1..]) by {
        assert entitiesB == [entitiesB[0]] + entitiesB[1..];
      }
    }
  }

  // ---------------------------------------------------------------- one-sided search, two-sided result

  /** `f` matches expected entity number j with actual entity number f[j], one to one and onto. */
  ghost predicate IsMatching(f: seq<nat>, entitiesA: seq<JsValue>, entitiesB: seq<JsValue>) {
    && |f| == |entitiesB|
    && (forall j :: 0 <= j < |f| ==> f[j] < |entitiesA| && Same(entitiesA[f[j]], entitiesB[j]))
    && (forall j, k :: 0 <= j < |f| && 0 <= k < |f| && f[j] == f[k] ==> j == k)
    && (forall i: nat :: i < |entitiesA| ==> i in f)
  }

  /** The two lists are permutations of each other up to `Same`. */
  ghost predicate IsPermutation(entitiesA: seq<JsValue>, entitiesB: seq<JsValue>) {
    exists f :: IsMatching(f, entitiesA, entitiesB)
  }

  ghost predicate PairwiseDifferent(entities: seq<JsValue>) {
    forall j, k :: 0 <= j < |entities| && 0 <= k < |entities| && Same(entities[j], entities[k]) ==> j == k
  }

  function UpTo(n: nat): (s: set<nat>)
    ensures |s| == n && forall i: nat :: i in s <==> i < n
  {
    if n == 0 then {} else UpTo(n - 1) + {n - 1}
  }

  /** Numbers below n, one for each index below n and all different, are all of them. */
  lemma Pigeonhole(f: seq<nat>)
    requires forall j :: 0 <= j < |f| ==> f[j] < |f|
    requires forall j, k :: 0 <= j < |f| && 0 <= k < |f| && f[j] == f[k] ==> j == k
    ensures forall i: nat :: i < |f| ==> i in f
  {
    ImageSize(f);
    EqualSizeSubset(Elements(f), UpTo(|f|));
    assert forall i: nat :: i in UpTo(|f|) ==> i in f;
  }

  ghost function Elements(f: seq<nat>): set<nat> {
    set i | i in f
  }

  lemma {:induction false} ImageSize(f: seq<nat>)
    requires forall j, k :: 0 <= j < |f| && 0 <= k < |f| && f[j] == f[k] ==> j == k
    ensures |Elements(f)| == |f|
  {
    if f == [] {
      assert Elements(f) == {};
    } else {
      var front, last := f[..|f| - 1], f[|f| - 1];
      ImageSize(front);
      assert f == front + [last] && last !in front;
      assert Elements(f) == Elements(front) + {last};
    }
  }

  /** When the expected entities are pairwise different, finding each of them among equally
      many actual ones is finding a permutation. */
  lemma SearchFindsPermutation(entitiesA: seq<JsValue>, entitiesB: seq<JsValue>)
    requires AllComparable(entitiesA, entitiesB) && |entitiesA| == |entitiesB| && PairwiseDifferent(entitiesB)
    ensures AllFound(entitiesA, entitiesB) <==> IsPermutation(entitiesA, entitiesB)
  {
    if AllFound(entitiesA, entitiesB) {
      var f := ChooseMatches(entitiesA, entitiesB, |entitiesB|);
      forall j, k | 0 <= j < |f| && 0 <= k < |f| && f[j] == f[k]
        ensures j == k
      {
        SameSymmetric(entitiesA[f[j]], entitiesB[j]);
        SameTransitive(entitiesB[j], entitiesA[f[j]], entitiesB[k]);
      }
      Pigeonhole(f);
      assert IsMatching(f, entitiesA, entitiesB);
    }
    if f :| IsMatching(f, entitiesA, entitiesB) {
      forall j | 0 <= j < |entitiesB|
        ensures Found(entitiesA, entitiesB[j])
      {
        assert Same(entitiesA[f[j]], entitiesB[j]);
      }
    }
  }

  lemma {:induction false} ChooseMatches(entitiesA: seq<JsValue>, entitiesB: seq<JsValue>, n: nat) returns (f: seq<nat>)
    requires n <= |entitiesB| && AllFound(entitiesA, entitiesB)
    ensures |f| == n && forall j :: 0 <= j < n ==> f[j] < |entitiesA| && Same(entitiesA[f[j]], entitiesB[j])
  {
    if n == 0 {
      f := [];
    } else {
      f := ChooseMatches(entitiesA, entitiesB, n - 1);
      assert Found(entitiesA, entitiesB[n - 1]);
      var i :| 0 <= i < |entitiesA| && Same(entitiesA[i], entitiesB[n - 1]);
      f := f + [i];
    }
  }

  lemma {:induction false} FormatAllLength(entities: seq<seq<Prop>>, other: Option<seq<Prop>>,
        relations: set<string>, parse: string -> Option<int>)
    requires FormatAll(entities, other, relations, parse).Ok?
    ensures |FormatAll(entities, other, relations, parse).value| == |entities|
  {
    if entities != [] {
      FormatAllLength(entities[..|entities| - 1], other, relations, parse);
    }
  }

  lemma PermutationsAreEquallyLong(entitiesA: seq<JsValue>, entitiesB: seq<JsValue>)
    requires IsPermutation(entitiesA, entitiesB)
    ensures |entitiesA| == |entitiesB|
  {
    var f :| IsMatching(f, entitiesA, entitiesB);
    ImageSize(f);
    assert Elements(f) == UpTo(|entitiesA|);
  }

  /** What the matcher decides: on comparable entities, whether there are equally many and
      every expected one is found; and whether the formatted lists are permutations of each
      other, if the expected entities are pairwise different. */
  lemma MatcherDecidesPermutation(actual: seq<seq<Prop>>, data: seq<seq<Prop>>, relations: set<string>,
        parse: string -> Option<int>)
    requires FormatAll(actual, First(data), relations, parse).Ok? &&
             FormatAll(data, First(actual), relations, parse).Ok?
    requires AllComparable(FormatAll(actual, First(data), relations, parse).value,
             FormatAll(data, First(actual), relations, parse).value)
    ensures var a, b := FormatAll(actual, First(data), relations, parse).value,
            FormatAll(data, First(actual), relations, parse).value;
            && Compared(actual, data, relations, parse) == Ok(|actual| == |data| && AllFound(a, b))
            && (PairwiseDifferent(b) ==> Compared(actual, data, relations, parse) == Ok(IsPermutation(a, b)))
  {
    var a, b := FormatAll(actual, First(data), relations, parse).value,
        FormatAll(data, First(actual), relations, parse).value;
    FormatAllLength(actual, First(data), relations, parse);
    FormatAllLength(data, First(actual), relations, parse);
    SearchAllDecidesAllFound(a, b);
    if IsPermutation(a, b) {
      PermutationsAreEquallyLong(a, b);
    }
    if |a| == |b| && PairwiseDifferent(b) {
      SearchFindsPermutation(a, b);
    }
  }

  /** Any list of objects leaves room for an object that can be compared with all of them
      and is the same as none. */
  lemma SomeStranger(entities: seq<JsValue>) returns (stranger: JsValue)
    requires forall i :: 0 <= i < |entities| ==> entities[i].Obj?
    ensures WellFormed(stranger) && forall i :: 0 <= i < |entities| ==> Comparable(stranger, entities[i])
    ensures forall i :: 0 <= i < |entities| ==> !Same(stranger, entities[i])
  {
    var key := SomeNameIsLonger(AllKeys(entities));
    stranger := Obj(PLAIN, [Prop(key, Num(0))]);
    assert stranger.props[0].key in Keys(stranger.props);
    forall i | 0 <= i < |entities|
      ensures Comparable(stranger, entities[i]) && !Same(stranger, entities[i])
    {
      KeysAreListed(entities, i);
      KeyIsListed(entities[i].props, key);
    }
  }

  ghost function AllKeys(entities: seq<JsValue>): set<string>
    requires forall i :: 0 <= i < |entities| ==> entities[i].Obj?
  {
    if entities == [] then {} else Keys(entities[0].props) + AllKeys(entities[1..])
  }

  lemma {:induction false} KeysAreListed(entities: seq<JsValue>, i: nat)
    requires (forall j :: 0 <= j < |entities| ==> entities[j].Obj?) && i < |entities|
    ensures Keys(entities[i].props) <= AllKeys(entities)
  {
    if i > 0 {
      KeysAreListed(entities[1..], i - 1);
    }
  }

  /** The condition is needed: when two expected entities are the same, replacing one of
      them by a stranger gives a list that passes without being a permutation. */
  lemma DuplicatesHideAStranger(entitiesB: seq<JsValue>, j: nat, k: nat) returns (entitiesA: seq<JsValue>)
    requires j < |entitiesB| && k < |entitiesB| && j != k && Same(entitiesB[j], entitiesB[k])
    requires AllComparable(entitiesB, entitiesB)
    requires forall i :: 0 <= i < |entitiesB| ==> entitiesB[i].Obj? && HasValidDates(entitiesB[i])
    ensures |entitiesA| == |entitiesB| && AllComparable(entitiesA, entitiesB)
    ensures AllFound(entitiesA, entitiesB) && !IsPermutation(entitiesA, entitiesB)
  {
    var stranger := SomeStranger(entitiesB);
    entitiesA := entitiesB[k := stranger];
    forall i | 0 <= i < |entitiesB|
      ensures Found(entitiesA, entitiesB[i])
    {
      SameReflexive(entitiesB[i]);
      if i == k {
        assert Same(entitiesA[j], entitiesB[i]);
      } else {
        assert Same(entitiesA[i], entitiesB[i]);
      }
    }
    if f :| IsMatching(f, entitiesA, entitiesB) {
      var m := MatchedWith(f, entitiesA, entitiesB, k);
    }
  }

  /** Over all lists of actual entities, the search is right if and only if the expected
      ones are pairwise different. */
  lemma SearchIsRightIffDifferent(entitiesB: seq<JsValue>)
    requires AllComparable(entitiesB, entitiesB)
    requires forall i :: 0 <= i < |entitiesB| ==> entitiesB[i].Obj? && HasValidDates(entitiesB[i])
    ensures PairwiseDifferent(entitiesB) <==>
            forall entitiesA :: |entitiesA| == |entitiesB| && AllComparable(entitiesA, entitiesB) ==>
              (AllFound(entitiesA, entitiesB) <==> IsPermutation(entitiesA, entitiesB))
  {
    if PairwiseDifferent(entitiesB) {
      forall entitiesA | |entitiesA| == |entitiesB| && AllComparable(entitiesA, entitiesB)
        ensures AllFound(entitiesA, entitiesB) <==> IsPermutation(entitiesA, entitiesB)
      {
        SearchFindsPermutation(entitiesA, entitiesB);
      }
    } else {
      var j, k :| 0 <= j < |entitiesB| && 0 <= k < |entitiesB| && Same(entitiesB[j], entitiesB[k]) && j != k;
      var entitiesA := DuplicatesHideAStranger(entitiesB, j, k);
    }
  }

  lemma MatchedWith(f: seq<nat>, entitiesA: seq<JsValue>, entitiesB: seq<JsValue>, i: nat) returns (j: nat)
    requires IsMatching(f, entitiesA, entitiesB) && i < |entitiesA|
    ensures j < |entitiesB| && Same(entitiesA[i], entitiesB[j])
  {
    assert i in f;
    j :| 0 <= j < |f| && f[j] == i;
  }
}
