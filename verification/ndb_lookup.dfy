/** `Element.lookup` on the datastore: a single key, or a list of keys looked
    up together, filtered by the active flag and by content type. */
module NdbLookup {
  import opened Wrappers
  import opened PyValue
  import opened NdbModel

  /** The `contType` argument: absent, one type, or a list of types. */
  datatype TypeArg = NoType | OneType(t: ContentType) | TypeList(ts: seq<ContentType>)

  /** A scalar type is wrapped into a one-item list. */
  function TypeFilter(a: TypeArg): (r: Option<seq<ContentType>>)
    ensures a.NoType? <==> r.None?
    ensures a.OneType? ==> r == Some([a.t])
    ensures a.TypeList? ==> r == Some(a.ts)
  {
    match a
    case NoType => None
    case OneType(t) => Some([t])
    case TypeList(ts) => Some(ts)
  }

  /** Whether a fetched record passes the filters. The active flag is
      compared first, with Python's `==`; an attribute has no `contType`,
      so a type filter on it raises AttributeError. */
  function Passes(r: Record, active: Value, types: Option<seq<ContentType>>): (res: Result<bool>)
    ensures res.Err? <==> (active == NoneVal || Equals(BoolVal(RecordActive(r)), active)) && types.Some? && r.AttribRec?
    ensures res.Err? ==> res.error == AttributeError
    ensures res == Ok(true) <==>
              (active == NoneVal || Equals(BoolVal(RecordActive(r)), active)) &&
              (types.None? || (r.ContainerRec? && r.c.contType in types.value))
  {
    if active != NoneVal && !Equals(BoolVal(RecordActive(r)), active) then Ok(false)
    else if types.None? then Ok(true)
    else if r.AttribRec? then Err(AttributeError)
    else Ok(r.c.contType in types.value)
  }

  /** `lookupSingle` on a fresh element: key and container are set only when
      the key is stored and its record passes both filters. */
  function LookupSingle(db: Db, k: Key, active: Value, types: Option<seq<ContentType>>): (r: Result<Element>)
    ensures r.Err? <==> k in db.records && Passes(db.records[k], active, types).Err?
    ensures r.Ok? ==> r.value.keys == [] && r.value.containers == [] && r.value.attribs.None?
    ensures r.Ok? ==> (r.value.key.Some? <==> k in db.records && Passes(db.records[k], active, types) == Ok(true))
    ensures r.Ok? && r.value.key.Some? ==> r.value.key == Some(k) && r.value.container == Some(db.records[k])
    ensures r.Ok? && r.value.key.None? ==> r.value.container.None?
  {
    if k !in db.records then Ok(Blank)
    else
      var rec := db.records[k];
      match Passes(rec, active, types)
      case Err(x) => Err(x)
      case Ok(pass) => if pass then Ok(Blank.(key := Some(k), container := Some(rec))) else Ok(Blank)
  }

  /** An entry of a key list: a key, or any other Python value. */
  datatype Item = KeyItem(key: Key) | OtherItem(v: Value)

  /** `[k for k in list(set(items)) if type(k) is ndb.Key]`: the distinct
      keys, in order of first occurrence. */
  function DistinctKeys(items: seq<Item>): (ks: seq<Key>)
    ensures NoDup(ks)
    ensures forall k :: k in ks <==> KeyItem(k) in items
  {
    if |items| == 0 then []
    else
      var init := DistinctKeys(items[..|items| - 1]);
      var last := items[|items| - 1];
      assert items == items[..|items| - 1] + [last];
      if last.KeyItem? && last.key !in init then init + [last.key] else init
  }

  /** The loop over `ndb.get_multi`: a missing key yields None, whose
      `active` raises AttributeError, as does a type filter on an attribute;
      otherwise the passing records are kept in order. */
  function Collect(db: Db, ks: seq<Key>, active: Value, types: Option<seq<ContentType>>): (r: Result<(seq<Key>, seq<Record>)>)
    ensures r.Err? <==> exists k | k in ks :: k !in db.records || Passes(db.records[k], active, types).Err?
    ensures r.Err? ==> r.error == AttributeError
    ensures r.Ok? ==> |r.value.0| == |r.value.1|
    ensures r.Ok? ==> forall i | 0 <= i < |r.value.0| ::
              r.value.0[i] in ks && r.value.0[i] in db.records &&
              r.value.1[i] == db.records[r.value.0[i]] && Passes(r.value.1[i], active, types) == Ok(true)
    ensures r.Ok? ==> forall k | k in ks && Passes(db.records[k], active, types) == Ok(true) :: k in r.value.0
    ensures r.Ok? && NoDup(ks) ==> NoDup(r.value.0)
  {
    if |ks| == 0 then Ok(([], []))
    else
      var init := ks[..|ks| - 1];
      var k := ks[|ks| - 1];
      SplitLast(ks);
      match Collect(db, init, active, types)
      case Err(x) => Err(x)
      case Ok(acc) =>
        if k !in db.records then Err(AttributeError)
        else
          match Passes(db.records[k], active, types)
          case Err(x) => Err(x)
          case Ok(pass) =>
            if !pass then Ok(acc) else Ok((acc.0 + [k], acc.1 + [db.records[k]]))
  }

  /** `lookupMultiple` on a fresh element. An unhashable list among the
      items makes `set()` raise TypeError. */
  function LookupMultiple(db: Db, items: seq<Item>, active: Value, types: Option<seq<ContentType>>): (r: Result<Element>)
    ensures (exists i | 0 <= i < |items| :: items[i].OtherItem? && items[i].v.ListVal?) ==> r == Err(TypeError)
    ensures r.Ok? ==> r.value.key.None? && r.value.container.None? && r.value.attribs.None?
    ensures r.Ok? ==> |r.value.keys| == |r.value.containers| && NoDup(r.value.keys)
    ensures r.Ok? ==> forall i | 0 <= i < |r.value.keys| ::
              KeyItem(r.value.keys[i]) in items && r.value.keys[i] in db.records &&
              r.value.containers[i] == db.records[r.value.keys[i]] &&
              Passes(r.value.containers[i], active, types) == Ok(true)
    ensures r.Ok? ==> forall k | KeyItem(k) in items :: k in db.records
    ensures r.Ok? ==> forall k | KeyItem(k) in items && Passes(db.records[k], active, types) == Ok(true) ::
              k in r.value.keys
  {
    if exists i | 0 <= i < |items| :: items[i].OtherItem? && items[i].v.ListVal? then Err(TypeError)
    else
      var ks := DistinctKeys(items);
      match Collect(db, ks, active, types)
      case Err(x) => Err(x)
      case Ok(found) => Ok(Blank.(keys := found.0, containers := found.1))
  }

  /** The `key` argument of `lookup`. */
  datatype KeyArg = OneKey(k: Key) | KeyList(items: seq<Item>) | NotAKey

  /** `Element(key=...)`: a key is looked up alone, a list of keys together,
      and anything else raises TypeError. Whether the multiple lookup runs
      in a cross-group transaction (at most five items) does not change
      its result. */
  function Lookup(db: Db, key: KeyArg, active: Value, contType: TypeArg): (r: Result<Element>)
    ensures key.OneKey? ==> r == LookupSingle(db, key.k, active, TypeFilter(contType))
    ensures key.KeyList? ==> r == LookupMultiple(db, key.items, active, TypeFilter(contType))
    ensures key.NotAKey? ==> r == Err(TypeError)
  {
    match key
    case OneKey(k) => LookupSingle(db, k, active, TypeFilter(contType))
    case KeyList(items) => LookupMultiple(db, items, active, TypeFilter(contType))
    case NotAKey => Err(TypeError)
  }

  /** A multiple lookup returns a key exactly when a single lookup of that
      key with the same filters finds it. */
  lemma MultipleAgreesWithSingle(db: Db, items: seq<Item>, active: Value, types: Option<seq<ContentType>>, k: Key)
    requires LookupMultiple(db, items, active, types).Ok?
    requires KeyItem(k) in items
    ensures LookupSingle(db, k, active, types).Ok?
    ensures k in LookupMultiple(db, items, active, types).value.keys <==> LookupSingle(db, k, active, types).value.key == Some(k)
  {
    var m := LookupMultiple(db, items, active, types).value;
    assert k in DistinctKeys(items);
    if k in m.keys {
      var i :| 0 <= i < |m.keys| && m.keys[i] == k;
    }
  }

  /** Without filters, a multiple lookup of stored keys returns each
      distinct key once, in order of first occurrence, with its record. */
  lemma {:induction false} UnfilteredCollectsAll(db: Db, ks: seq<Key>)
    requires forall k | k in ks :: k in db.records
    ensures var r := Collect(db, ks, NoneVal, None);
            r.Ok? && r.value.0 == ks && |r.value.1| == |ks| &&
            forall i | 0 <= i < |ks| :: r.value.1[i] == db.records[ks[i]]
  {
    if |ks| > 0 {
      var init := ks[..|ks| - 1];
      assert forall k | k in init :: k in ks;
      UnfilteredCollectsAll(db, init);
      var k := ks[|ks| - 1];
      SplitLast(ks);
      assert Passes(db.records[k], NoneVal, None) == Ok(true);
      var acc := Collect(db, init, NoneVal, None).value;
      var out := (acc.0 + [k], acc.1 + [db.records[k]]);
      assert Collect(db, ks, NoneVal, None) == Ok(out);
      assert out.0 == ks;
      forall i | 0 <= i < |ks| ensures out.1[i] == db.records[ks[i]] {
        if i < |init| {
          assert out.1[i] == acc.1[i] && ks[i] == init[i];
        }
      }
    }
  }

  lemma UnfilteredLookupReturnsAll(db: Db, items: seq<Item>)
    requires forall k | KeyItem(k) in items :: k in db.records
    requires forall i | 0 <= i < |items| :: items[i].KeyItem?
    ensures var r := LookupMultiple(db, items, NoneVal, None);
            r.Ok? && r.value.keys == DistinctKeys(items) &&
            forall i | 0 <= i < |r.value.keys| :: r.value.containers[i] == db.records[r.value.keys[i]]
  {
    UnfilteredCollectsAll(db, DistinctKeys(items));
  }
}
