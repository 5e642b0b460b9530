/** The descriptor-based typed fields of the in-memory schema: `AllProperties`
    with its `checkInput`, construction, read and write, the `ListValue` that a
    repeated field hands out, and the membership rule of `EnumProperty`. */
module Properties {
  import opened Wrappers
  import opened PyValue

  /** A class as `EnumProperty` inspects it: its name and the (name, value)
      pairs that `dir()` lists for it. */
  datatype EnumClass = EnumClass(name: string, attrs: seq<(string, Value)>)

  predicate IsPublic(name: string) {
    |name| > 0 && name[0] != '_'
  }

  /** `[getattr(cls, k) for k in dir(cls) if k[0] != '_']` */
  function PublicValues(attrs: seq<(string, Value)>): seq<Value> {
    if |attrs| == 0 then []
    else (if IsPublic(attrs[0].0) then [attrs[0].1] else []) + PublicValues(attrs[1..])
  }

  /** The enumeration's values are exactly the public attributes' values. */
  lemma {:induction false} PublicValuesExact(attrs: seq<(string, Value)>)
    ensures forall v | v in PublicValues(attrs) :: exists i | 0 <= i < |attrs| :: attrs[i].1 == v && IsPublic(attrs[i].0)
    ensures forall i | 0 <= i < |attrs| && IsPublic(attrs[i].0) :: attrs[i].1 in PublicValues(attrs)
  {
    if |attrs| > 0 {
      var rest := attrs[1..];
      PublicValuesExact(rest);
      var vs := PublicValues(attrs);
      assert vs == (if IsPublic(attrs[0].0) then [attrs[0].1] else []) + PublicValues(rest);
      forall v | v in vs ensures exists i | 0 <= i < |attrs| :: attrs[i].1 == v && IsPublic(attrs[i].0) {
        if IsPublic(attrs[0].0) && v == attrs[0].1 {
          assert attrs[0].1 == v;
        } else {
          assert v in PublicValues(rest);
          var j :| 0 <= j < |rest| && rest[j].1 == v && IsPublic(rest[j].0);
          assert attrs[j + 1] == rest[j];
        }
      }
      forall i | 0 <= i < |attrs| && IsPublic(attrs[i].0) ensures attrs[i].1 in vs {
        if i > 0 {
          assert attrs[i] == rest[i - 1];
        }
      }
    }
  }

  /** How the scalar half of `checkInput` judges a value: by exact type, or,
      for `EnumProperty`, by membership in the enumeration's values. */
  datatype Rule = ExactType | EnumMembers(members: seq<Value>)

  datatype Field = Field(dataType: PyType, default: Value, repeated: bool, rule: Rule)

  predicate ScalarAccepted(f: Field, data: Value) {
    match f.rule
    case ExactType => TypeOf(data) == f.dataType
    case EnumMembers(ms) => IsMember(data, ms)
  }

  /** `checkInput`, written as the source counts the well-typed items. */
  predicate CheckInput(f: Field, data: Value) {
    || (!f.repeated && (data == NoneVal || ScalarAccepted(f, data)))
    || (f.repeated && data.ListVal? && CountOfType(data.items, f.dataType) == |data.items|)
  }

  /** What a field may hold: a non-repeated field holds None or one accepted
      value; a repeated field holds a list whose every item has exactly the
      field's data type. */
  predicate Admits(f: Field, data: Value) {
    if f.repeated then data.ListVal? && AllOfType(data.items, f.dataType)
    else data == NoneVal || ScalarAccepted(f, data)
  }

  lemma CheckInputIsAdmits(f: Field, data: Value)
    ensures CheckInput(f, data) <==> Admits(f, data)
  {
    if data.ListVal? {
      CountOfTypeIsLength(data.items, f.dataType);
    }
  }

  /** A non-repeated `EnumProperty` takes None or a value equal to one of the
      enumeration's public attribute values, and nothing else. */
  lemma EnumAccepts(cls: EnumClass, default: Value, data: Value)
    ensures var f := Field(ClassType(cls.name), default, false, EnumMembers(PublicValues(cls.attrs)));
            CheckInput(f, data) <==>
              (data == NoneVal || exists i | 0 <= i < |cls.attrs| :: IsPublic(cls.attrs[i].0) && Equals(data, cls.attrs[i].1))
  {
    var ms := PublicValues(cls.attrs);
    PublicValuesExact(cls.attrs);
    if data != NoneVal && IsMember(data, ms) {
      var j :| 0 <= j < |ms| && Equals(data, ms[j]);
      assert ms[j] in ms;
      var i :| 0 <= i < |cls.attrs| && cls.attrs[i].1 == ms[j] && IsPublic(cls.attrs[i].0);
    }
    if data != NoneVal && exists i | 0 <= i < |cls.attrs| :: IsPublic(cls.attrs[i].0) && Equals(data, cls.attrs[i].1) {
      var i :| 0 <= i < |cls.attrs| && IsPublic(cls.attrs[i].0) && Equals(data, cls.attrs[i].1);
      assert cls.attrs[i].1 in ms;
      var j :| 0 <= j < |ms| && ms[j] == cls.attrs[i].1;
      assert Equals(data, ms[j]);
    }
  }

  /** `AllProperties.__init__`: a repeated field without a default gets the
      empty list, and a default that fails `checkInput` raises TypeError. */
  function NewField(dataType: PyType, default: Value, repeated: bool, rule: Rule): (r: Result<Field>)
    ensures repeated && default == NoneVal ==> r == Ok(Field(dataType, ListVal([]), true, rule))
    ensures !(repeated && default == NoneVal) ==> (r.Ok? <==> Admits(Field(dataType, default, repeated, rule), default))
    ensures r.Ok? ==> r.value.dataType == dataType && r.value.repeated == repeated && r.value.rule == rule
    ensures r.Ok? ==> WellFormed(r.value)
    ensures r.Err? ==> r.error == TypeError
  {
    var d := if repeated && default == NoneVal then ListVal([]) else default;
    var f := Field(dataType, d, repeated, rule);
    CheckInputIsAdmits(f, d);
    if CheckInput(f, d) then Ok(f) else Err(TypeError)
  }

  /** Every field built by `NewField` has an admissible default. */
  predicate WellFormed(f: Field) {
    Admits(f, f.default)
  }

  /** `BooleanProperty`, `StringProperty` and `EnumProperty` are `NewField`
      with their data type and rule filled in. */
  function BooleanProperty(default: Value, repeated: bool): (r: Result<Field>)
    ensures r.Ok? ==> r.value.dataType == BoolType && r.value.rule == ExactType && WellFormed(r.value)
    ensures !repeated ==> (r.Ok? <==> default == NoneVal || default.BoolVal?)
  {
    NewField(BoolType, default, repeated, ExactType)
  }

  function StringProperty(default: Value, repeated: bool): (r: Result<Field>)
    ensures r.Ok? ==> r.value.dataType == StringType && r.value.rule == ExactType && WellFormed(r.value)
    ensures !repeated ==> (r.Ok? <==> default == NoneVal || default.StrVal?)
  {
    NewField(StringType, default, repeated, ExactType)
  }

  function EnumProperty(cls: EnumClass, default: Value, repeated: bool): (r: Result<Field>)
    ensures r.Ok? ==> r.value.dataType == ClassType(cls.name) && WellFormed(r.value)
    ensures !repeated ==> (r.Ok? <==> default == NoneVal || IsMember(default, PublicValues(cls.attrs)))
  {
    NewField(ClassType(cls.name), default, repeated, EnumMembers(PublicValues(cls.attrs)))
  }

  /** The list a repeated field hands out: it remembers the element type. */
  datatype ListValue = ListValue(dataType: PyType, items: seq<Value>)

  /** What an instance holds for one field: a plain value, or a `ListValue`. */
  datatype Stored = Plain(v: Value) | Listed(lv: ListValue)

  /** One instance's field values, by field name. */
  type Slots<N> = map<N, Stored>

  /** The Python value a stored entry compares as. */
  function Contents(s: Stored): Value {
    match s
    case Plain(v) => v
    case Listed(lv) => ListVal(lv.items)
  }

  /** A stored entry has the shape the field prescribes and an admitted value. */
  predicate Conforms(f: Field, s: Stored) {
    match s
    case Plain(v) => !f.repeated && Admits(f, v)
    case Listed(lv) => f.repeated && lv.dataType == f.dataType && AllOfType(lv.items, f.dataType)
  }

  /** `__get__`: the instance's value, or the field's default when the
      instance never set it (wrapped as a `ListValue` for a repeated field). */
  function Get<N>(f: Field, slots: Slots<N>, name: N): (r: Stored)
    requires WellFormed(f)
    ensures name in slots ==> r == slots[name]
    ensures name !in slots ==> Contents(r) == f.default && Conforms(f, r)
  {
    if name in slots then slots[name]
    else if f.repeated then Listed(ListValue(f.dataType, f.default.items))
    else Plain(f.default)
  }

  /** `__set__`: a value failing `checkInput` raises TypeError before the
      instance is touched; otherwise only this field changes, and reading it
      back gives the value (as a `ListValue` of the same items if repeated). */
  function Set<N>(f: Field, slots: Slots<N>, name: N, value: Value): (r: Result<Slots<N>>)
    ensures r.Err? <==> !Admits(f, value)
    ensures r.Err? ==> r.error == TypeError
    ensures r.Ok? ==> r.value.Keys == slots.Keys + {name}
    ensures r.Ok? ==> forall n | n in slots && n != name :: r.value[n] == slots[n]
    ensures r.Ok? ==> Contents(r.value[name]) == value && Conforms(f, r.value[name])
  {
    CheckInputIsAdmits(f, value);
    if !CheckInput(f, value) then Err(TypeError)
    else if f.repeated then Ok(slots[name := Listed(ListValue(f.dataType, value.items))])
    else Ok(slots[name := Plain(value)])
  }

  /** After a successful `__set__`, `__get__` returns exactly what was set. */
  lemma SetThenGet<N>(f: Field, slots: Slots<N>, name: N, value: Value)
    requires WellFormed(f)
    requires Set(f, slots, name, value).Ok?
    ensures var g := Get(f, Set(f, slots, name, value).value, name);
            g == (if f.repeated then Listed(ListValue(f.dataType, value.items)) else Plain(value))
  {
  }

  /** A subscript: an integer index, or a slice object with step None. */
  datatype Subscript = At(index: int) | Span(lo: int, hi: int)

  /** A slice bound normalised against a list of length n. */
  function Bound(x: int, n: nat): (b: nat)
    ensures b <= n
    ensures 0 <= x <= n ==> b == x
  {
    if x < 0 then (if x + n < 0 then 0 else x + n) else if x > n then n else x
  }

  /** One `str` value per character of s. */
  function Chars(s: string): (vs: seq<Value>)
    ensures |vs| == |s|
    ensures forall i | 0 <= i < |s| :: vs[i] == StrVal([s[i]])
  {
    if |s| == 0 then [] else [StrVal([s[0]])] + Chars(s[1..])
  }

  /** The elements an assigned iterable yields: a list's items, a string's
      characters; None for values that are not iterable. */
  function Iterated(v: Value): Option<seq<Value>> {
    match v
    case ListVal(xs) => Some(xs)
    case StrVal(s) => Some(Chars(s))
    case _ => None
  }

  /** `list.__setitem__`: an index in range (negative counts from the end) is
      overwritten, a slice is replaced by the elements of an iterable. */
  function ListSetItem(items: seq<Value>, key: Subscript, value: Value): (r: Result<seq<Value>>)
    ensures key.At? ==> (r.Ok? <==> -|items| <= key.index < |items|)
    ensures key.At? && r.Ok? ==>
              var j := if key.index < 0 then key.index + |items| else key.index;
              |r.value| == |items| && r.value[j] == value &&
              forall k | 0 <= k < |items| && k != j :: r.value[k] == items[k]
    ensures key.Span? ==> (r.Ok? <==> Iterated(value).Some?)
    ensures key.Span? && r.Ok? ==>
              var a := Bound(key.lo, |items|);
              var b := if Bound(key.hi, |items|) < a then a else Bound(key.hi, |items|);
              var els := Iterated(value).value;
              |r.value| == |items| - (b - a) + |els| &&
              r.value[..a] == items[..a] && r.value[a..a + |els|] == els && r.value[a + |els|..] == items[b..]
    ensures r.Err? ==> r.error == (if key.At? then IndexError else TypeError)
  {
    match key
    case At(i) =>
      if -|items| <= i < |items| then
        Ok(items[(if i < 0 then i + |items| else i) := value])
      else Err(IndexError)
    case Span(lo, hi) =>
      match Iterated(value)
      case None => Err(TypeError)
      case Some(els) =>
        var a := Bound(lo, |items|);
        var b := if Bound(hi, |items|) < a then a else Bound(hi, |items|);
        assert (items[..a] + els + items[b..])[a..a + |els|] == els;
        Ok(items[..a] + els + items[b..])
  }

  /** Whatever `list.__setitem__` stores, a list of values of one type keeps
      holding only that type when what goes in is of that type too. */
  lemma {:induction false} ListSetItemKeepsType(items: seq<Value>, key: Subscript, value: Value, t: PyType)
    requires AllOfType(items, t)
    requires key.At? ==> TypeOf(value) == t
    requires key.Span? ==> Iterated(value).Some? && AllOfType(Iterated(value).value, t)
    requires ListSetItem(items, key, value).Ok?
    ensures AllOfType(ListSetItem(items, key, value).value, t)
  {
    var xs := ListSetItem(items, key, value).value;
    if key.Span? {
      var a := Bound(key.lo, |items|);
      var b := if Bound(key.hi, |items|) < a then a else Bound(key.hi, |items|);
      var els := Iterated(value).value;
      var n := |els|;
      forall k | 0 <= k < |xs| ensures TypeOf(xs[k]) == t {
        if k < a {
          assert xs[k] == xs[..a][k] == items[..a][k];
        } else if k < a + n {
          assert xs[k] == xs[a..a + n][k - a] == els[k - a];
        } else {
          assert xs[k] == xs[a + n..][k - a - n] == items[b..][k - a - n];
        }
      }
    }
  }

  /** `ListValue.__setitem__` as written: a value of the element type, or a
      list of such values, is passed on to `list.__setitem__` whatever the
      subscript; anything else raises TypeError and the list is unchanged. */
  function SetItemAsWritten(lv: ListValue, key: Subscript, value: Value): (r: Result<ListValue>)
    ensures !(TypeOf(value) == lv.dataType || (value.ListVal? && AllOfType(value.items, lv.dataType))) ==>
              r == Err(TypeError)
    ensures TypeOf(value) == lv.dataType || (value.ListVal? && AllOfType(value.items, lv.dataType)) ==>
              match ListSetItem(lv.items, key, value)
              case Ok(xs) => r == Ok(ListValue(lv.dataType, xs))
              case Err(e) => r == Err(e)
  {
    assert value.ListVal? ==> (CountOfType(value.items, lv.dataType) == |value.items| <==> AllOfType(value.items, lv.dataType)) by {
      if value.ListVal? {
        CountOfTypeIsLength(value.items, lv.dataType);
      }
    }
    if TypeOf(value) == lv.dataType || (value.ListVal? && CountOfType(value.items, lv.dataType) == |value.items|) then
      match ListSetItem(lv.items, key, value)
      case Ok(xs) => Ok(ListValue(lv.dataType, xs))
      case Err(e) => Err(e)
    else Err(TypeError)
  }

  /** The index assignment `lv[0] = ["b"]` on a list of strings is accepted
      and stores the list itself as an element, so the list stops holding
      only strings. */
  lemma SetItemAsWrittenNestsList()
    ensures var lv := ListValue(StringType, [StrVal("a")]);
            var r := SetItemAsWritten(lv, At(0), ListVal([StrVal("b")]));
            r == Ok(ListValue(StringType, [ListVal([StrVal("b")])])) && !AllOfType(r.value.items, StringType)
  {
    var lv := ListValue(StringType, [StrVal("a")]);
    var v := ListVal([StrVal("b")]);
    assert AllOfType(v.items, StringType);
    assert lv.items[0 := v] == [v] by {
      assert |lv.items[0 := v]| == 1 && lv.items[0 := v][0] == v;
    }
    assert ListSetItem(lv.items, At(0), v) == Ok(lv.items[0 := v]);
    var r := SetItemAsWritten(lv, At(0), v);
    assert TypeOf(r.value.items[0]) == ListType;
  }

  /** `ListValue.__setitem__` as intended: an index takes one value of the
      element type, a slice takes a list of such values; anything else raises
      TypeError. A list holding only the element type keeps doing so. */
  function SetItem(lv: ListValue, key: Subscript, value: Value): (r: Result<ListValue>)
    ensures key.At? ==> (TypeOf(value) != lv.dataType ==> r == Err(TypeError))
    ensures key.Span? ==> (!(value.ListVal? && AllOfType(value.items, lv.dataType)) ==> r == Err(TypeError))
    ensures r.Ok? ==> r.value.dataType == lv.dataType
    ensures r.Ok? && AllOfType(lv.items, lv.dataType) ==> AllOfType(r.value.items, lv.dataType)
    ensures key.At? && TypeOf(value) == lv.dataType ==> (r.Ok? <==> -|lv.items| <= key.index < |lv.items|)
    ensures key.Span? && value.ListVal? && AllOfType(value.items, lv.dataType) ==> r.Ok?
  {
    var accepted :=
      match key
      case At(_) => TypeOf(value) == lv.dataType
      case Span(_, _) => value.ListVal? && AllOfType(value.items, lv.dataType);
    if !accepted then Err(TypeError)
    else
      match ListSetItem(lv.items, key, value)
      case Ok(xs) =>
        assert AllOfType(lv.items, lv.dataType) ==> AllOfType(xs, lv.dataType) by {
          if AllOfType(lv.items, lv.dataType) {
            ListSetItemKeepsType(lv.items, key, value, lv.dataType);
          }
        }
        Ok(ListValue(lv.dataType, xs))
      case Err(e) => Err(e)
  }

  /** A plain slice statement `lv[i:j] = v` on a `list` subclass calls the
      inherited `list.__setslice__`, never the overridden `__setitem__`: the
      elements of any iterable replace the clipped slice unchecked, and a
      value that is not iterable raises TypeError. */
  function SetSliceAsWritten(lv: ListValue, lo: int, hi: int, value: Value): (r: Result<ListValue>)
    ensures r.Ok? <==> Iterated(value).Some?
    ensures r.Err? ==> r.error == TypeError
    ensures r.Ok? ==>
              var a := Bound(lo, |lv.items|);
              var b := if Bound(hi, |lv.items|) < a then a else Bound(hi, |lv.items|);
              r.value == ListValue(lv.dataType, lv.items[..a] + Iterated(value).value + lv.items[b..])
  {
    match ListSetItem(lv.items, Span(lo, hi), value)
    case Ok(xs) =>
      var a := Bound(lo, |lv.items|);
      var b := if Bound(hi, |lv.items|) < a then a else Bound(hi, |lv.items|);
      assert xs == lv.items[..a] + Iterated(value).value + lv.items[b..];
      Ok(ListValue(lv.dataType, xs))
    case Err(e) => Err(e)
  }

  /** `lv[0:1] = [1]` on a list of strings goes through unchecked. */
  lemma SetSliceAsWrittenBreaksType()
    ensures var r := SetSliceAsWritten(ListValue(StringType, [StrVal("a")]), 0, 1, ListVal([IntVal(1)]));
            r == Ok(ListValue(StringType, [IntVal(1)])) && !AllOfType(r.value.items, StringType)
  {
    var items := [StrVal("a")];
    assert items[..0] + [IntVal(1)] + items[1..] == [IntVal(1)];
    var r := SetSliceAsWritten(ListValue(StringType, items), 0, 1, ListVal([IntVal(1)]));
    assert TypeOf(r.value.items[0]) == IntType;
  }

  /** Wherever the checked slice assignment accepts a value, it stores what
      the unchecked one does; it only refuses values of other types. */
  lemma SetItemSpanRefinesSetSlice(lv: ListValue, lo: int, hi: int, value: Value)
    ensures SetItem(lv, Span(lo, hi), value).Ok? <==>
              value.ListVal? && AllOfType(value.items, lv.dataType)
    ensures SetItem(lv, Span(lo, hi), value).Ok? ==>
              SetItem(lv, Span(lo, hi), value) == SetSliceAsWritten(lv, lo, hi, value)
  {
  }

  /** `append` is inherited from `list`: nothing checks the value. */
  function AppendAsWritten(lv: ListValue, value: Value): (r: ListValue)
    ensures r.dataType == lv.dataType && |r.items| == |lv.items| + 1
    ensures r.items[..|lv.items|] == lv.items && r.items[|lv.items|] == value
  {
    ListValue(lv.dataType, lv.items + [value])
  }

  /** Appending an int to a list of strings goes through unchecked. */
  lemma AppendAsWrittenBreaksType()
    ensures var r := AppendAsWritten(ListValue(StringType, [StrVal("a")]), IntVal(1));
            !AllOfType(r.items, StringType)
  {
    var r := AppendAsWritten(ListValue(StringType, [StrVal("a")]), IntVal(1));
    assert TypeOf(r.items[1]) == IntType;
  }

  /** `append` as intended: only a value of the element type is added. */
  function Append(lv: ListValue, value: Value): (r: Result<ListValue>)
    ensures r.Ok? <==> TypeOf(value) == lv.dataType
    ensures r.Err? ==> r.error == TypeError
    ensures r.Ok? ==> |r.value.items| == |lv.items| + 1 && r.value.items[|lv.items|] == value
    ensures r.Ok? ==> r.value.dataType == lv.dataType && r.value.items[..|lv.items|] == lv.items
    ensures r.Ok? && AllOfType(lv.items, lv.dataType) ==> AllOfType(r.value.items, lv.dataType)
  {
    if TypeOf(value) == lv.dataType then Ok(ListValue(lv.dataType, lv.items + [value])) else Err(TypeError)
  }
}
