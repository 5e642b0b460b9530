/** `StringPropertyRepeated` and `StringPropertySingle`: string fields that
    normalise what they are given rather than only checking it. */
module StringProps {
  import opened Wrappers
  import opened PyValue
  import Properties

  /** The strings inside a list of `str` values. */
  function Strings(vs: seq<Value>): (ss: seq<string>)
    requires AllOfType(vs, StringType)
    ensures |ss| == |vs|
    ensures forall i | 0 <= i < |vs| :: vs[i] == StrVal(ss[i])
  {
    if |vs| == 0 then [] else [vs[0].s] + Strings(vs[1..])
  }

  /** The list a `StringPropertyRepeated` holds after construction or
      assignment: None gives [], a str s gives [s], a list of str is taken
      as it is, and anything else raises TypeError. */
  function Normalise(v: Value): (r: Result<seq<string>>)
    ensures r.Ok? <==> v == NoneVal || v.StrVal? || (v.ListVal? && AllOfType(v.items, StringType))
    ensures r.Err? ==> r.error == TypeError
    ensures v == NoneVal ==> r == Ok([])
    ensures v.StrVal? ==> r == Ok([v.s])
    ensures v.ListVal? && r.Ok? ==> StrValues(r.value) == v.items
  {
    assert v.ListVal? ==> (CountOfType(v.items, StringType) == |v.items| <==> AllOfType(v.items, StringType)) by {
      if v.ListVal? {
        CountOfTypeIsLength(v.items, StringType);
      }
    }
    if v.StrVal? then Ok([v.s])
    else if v.ListVal? && CountOfType(v.items, StringType) == |v.items| then Ok(Strings(v.items))
    else if v == NoneVal then Ok([])
    else Err(TypeError)
  }

  /** Assigning a list of strings and reading it back gives the same strings. */
  lemma NormaliseRoundTrip(ss: seq<string>)
    ensures Normalise(ListVal(StrValues(ss))) == Ok(ss)
  {
    var r := Normalise(ListVal(StrValues(ss)));
    assert r.Ok?;
    assert StrValues(r.value) == StrValues(ss);
    assert |r.value| == |ss|;
    forall i | 0 <= i < |ss| ensures r.value[i] == ss[i] {
      assert StrValues(r.value)[i] == StrVal(r.value[i]);
    }
    assert r.value == ss;
  }

  /** An index assignment of a str, read back as strings, is the same
      assignment on the strings. */
  lemma IndexAssignStrings(items: seq<string>, i: int, v: string)
    requires -|items| <= i < |items|
    ensures var vs := StrValues(items);
            var xs := Properties.ListSetItem(vs, Properties.At(i), StrVal(v));
            xs.Ok? && AllOfType(xs.value, StringType) &&
            Strings(xs.value) == items[(if i < 0 then i + |items| else i) := v]
  {
    var vs := StrValues(items);
    var j := if i < 0 then i + |items| else i;
    var want := items[j := v];
    assert Properties.ListSetItem(vs, Properties.At(i), StrVal(v)) == Ok(vs[j := StrVal(v)]);
    StrValuesUpdate(items, j, v);
    StringsOfStrValues(want);
  }

  /** The one-character strings a str yields when iterated. */
  function Letters(s: string): (ls: seq<string>)
    ensures |ls| == |s|
    ensures forall i | 0 <= i < |s| :: ls[i] == [s[i]]
  {
    if |s| == 0 then [] else [[s[0]]] + Letters(s[1..])
  }

  /** A slice assignment of a str, read back as strings, replaces the
      clipped slice by the str's characters, one string each. */
  lemma SliceAssignStrings(items: seq<string>, lo: int, hi: int, v: string)
    ensures var vs := StrValues(items);
            var xs := Properties.ListSetItem(vs, Properties.Span(lo, hi), StrVal(v));
            var a := Properties.Bound(lo, |items|);
            var b := if Properties.Bound(hi, |items|) < a then a else Properties.Bound(hi, |items|);
            xs.Ok? && AllOfType(xs.value, StringType) &&
            Strings(xs.value) == items[..a] + Letters(v) + items[b..]
  {
    var vs := StrValues(items);
    var a := Properties.Bound(lo, |items|);
    var b := if Properties.Bound(hi, |items|) < a then a else Properties.Bound(hi, |items|);
    var xs := Properties.ListSetItem(vs, Properties.Span(lo, hi), StrVal(v)).value;
    assert xs == vs[..a] + Properties.Chars(v) + vs[b..];
    StrValuesSplice(items, a, b, v);
    StringsOfStrValues(items[..a] + Letters(v) + items[b..]);
  }

  /** Taking `str` values commutes with cutting a list and splicing in the
      characters of a str. */
  lemma StrValuesSplice(items: seq<string>, a: nat, b: nat, v: string)
    requires a <= b <= |items|
    ensures StrValues(items[..a] + Letters(v) + items[b..]) ==
              StrValues(items)[..a] + Properties.Chars(v) + StrValues(items)[b..]
  {
    var lhs := StrValues(items[..a] + Letters(v) + items[b..]);
    var rhs := StrValues(items)[..a] + Properties.Chars(v) + StrValues(items)[b..];
    assert |lhs| == |rhs|;
    forall k | 0 <= k < |lhs| ensures lhs[k] == rhs[k] {
    }
  }

  /** Replacing one string and then taking `str` values is replacing that
      one value. */
  lemma StrValuesUpdate(items: seq<string>, j: nat, v: string)
    requires j < |items|
    ensures StrValues(items)[j := StrVal(v)] == StrValues(items[j := v])
  {
    var a := StrValues(items)[j := StrVal(v)];
    var b := StrValues(items[j := v]);
    forall k | 0 <= k < |items| ensures a[k] == b[k] {
    }
  }

  /** Reading strings back from their `str` values gives the same strings. */
  lemma StringsOfStrValues(ss: seq<string>)
    ensures Strings(StrValues(ss)) == ss
  {
    var out := Strings(StrValues(ss));
    forall k | 0 <= k < |ss| ensures out[k] == ss[k] {
      assert StrVal(out[k]) == StrValues(ss)[k];
    }
  }

  /** `StringPropertyRepeated.__setitem__`: only a str may be stored, through
      `list.__setitem__`; anything else raises TypeError. At an index the
      str replaces one item; for a slice object its characters replace the
      slice. The list keeps holding strings only. */
  function RepeatedSetItem(items: seq<string>, key: Properties.Subscript, value: Value): (r: Result<seq<string>>)
    ensures !value.StrVal? ==> r == Err(TypeError)
    ensures value.StrVal? && key.At? ==> (r.Ok? <==> -|items| <= key.index < |items|)
    ensures value.StrVal? && key.At? && r.Ok? ==>
              var j := if key.index < 0 then key.index + |items| else key.index;
              r.value == items[j := value.s]
    ensures value.StrVal? && key.Span? ==>
              var a := Properties.Bound(key.lo, |items|);
              var b := if Properties.Bound(key.hi, |items|) < a then a else Properties.Bound(key.hi, |items|);
              r == Ok(items[..a] + Letters(value.s) + items[b..])
  {
    if !value.StrVal? then Err(TypeError)
    else
      var vs := StrValues(items);
      match Properties.ListSetItem(vs, key, value)
      case Ok(xs) =>
        assert Properties.Iterated(value).Some? && AllOfType(Properties.Iterated(value).value, StringType) by {
          var els := Properties.Chars(value.s);
          assert forall k | 0 <= k < |els| :: TypeOf(els[k]) == StringType;
        }
        Properties.ListSetItemKeepsType(vs, key, value, StringType);
        var out := Strings(xs);
        assert key.At? ==> out == items[(if key.index < 0 then key.index + |items| else key.index) := value.s] by {
          if key.At? {
            IndexAssignStrings(items, key.index, value.s);
          }
        }
        assert key.Span? ==>
                 var a := Properties.Bound(key.lo, |items|);
                 var b := if Properties.Bound(key.hi, |items|) < a then a else Properties.Bound(key.hi, |items|);
                 out == items[..a] + Letters(value.s) + items[b..] by {
          if key.Span? {
            SliceAssignStrings(items, key.lo, key.hi, value.s);
          }
        }
        Ok(out)
      case Err(e) => Err(e)
  }

  /** `StringPropertySingle.__init__` and `__set__`: None or a str is kept,
      anything else raises TypeError. */
  function SingleValue(v: Value): (r: Result<Option<string>>)
    ensures r.Ok? <==> v == NoneVal || v.StrVal?
    ensures r.Err? ==> r.error == TypeError
    ensures r.Ok? ==> AsValue(r.value) == v
  {
    match v
    case NoneVal => Ok(None)
    case StrVal(s) => Ok(Some(s))
    case _ => Err(TypeError)
  }

  /** The Python value a single string field holds. */
  function AsValue(o: Option<string>): Value {
    match o
    case None => NoneVal
    case Some(s) => StrVal(s)
  }

  /** Whatever a single string field holds can be assigned back unchanged. */
  lemma SingleValueRoundTrip(o: Option<string>)
    ensures SingleValue(AsValue(o)) == Ok(o)
  {
  }
}
