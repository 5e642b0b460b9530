/** The `Element` façade over the in-memory store: the container schema,
    filtered single and multiple lookups, and the creation of the root and of
    child containers. */
module DictElement {
  import opened Wrappers
  import opened PyValue
  import opened Properties
  import opened DictStore

  /** `ContentType` as `EnumProperty` inspects it through `dir()`, which lists
      names in sorted order. */
  const ContentTypeClass: EnumClass := EnumClass("ContentType",
    [("AREA", IntVal(2)), ("CLIMB", IntVal(4)), ("CRAG", IntVal(3)), ("ROOT", IntVal(1)),
     ("__doc__", NoneVal), ("__module__", StrVal("data_dict"))])

  /** `ContentType.ROOT` */
  const Root: Value := IntVal(1)

  /** The fields of `Container`, `Attrib` and `AttribName`. */
  const ActiveField: Field := Field(BoolType, NoneVal, false, ExactType)
  const ContTypeField: Field := Field(ClassType("ContentType"), NoneVal, false, EnumMembers([IntVal(2), IntVal(4), IntVal(3), IntVal(1)]))
  const StrField: Field := Field(StringType, NoneVal, false, ExactType)
  const StrListField: Field := Field(StringType, ListVal([]), true, ExactType)

  /** The field constants are what the class bodies construct. */
  lemma SchemaBuilds()
    ensures BooleanProperty(NoneVal, false) == Ok(ActiveField)
    ensures StringProperty(NoneVal, false) == Ok(StrField)
    ensures StringProperty(NoneVal, true) == Ok(StrListField)
  {
  }

  /** `dir(ContentType)` yields the four members' values in name order. */
  lemma ContentTypeMembers()
    ensures PublicValues(ContentTypeClass.attrs) == [IntVal(2), IntVal(4), IntVal(3), IntVal(1)]
  {
    var attrs := ContentTypeClass.attrs;
    assert attrs[6..] == [];
    assert attrs[5..][1..] == attrs[6..] && !IsPublic(attrs[5].0);
    assert PublicValues(attrs[5..]) == [];
    assert attrs[4..][1..] == attrs[5..] && !IsPublic(attrs[4].0);
    assert PublicValues(attrs[4..]) == [];
    assert attrs[3..][1..] == attrs[4..] && IsPublic(attrs[3].0);
    assert PublicValues(attrs[3..]) == [IntVal(1)];
    assert attrs[2..][1..] == attrs[3..] && IsPublic(attrs[2].0);
    assert PublicValues(attrs[2..]) == [IntVal(3), IntVal(1)];
    assert attrs[1..][1..] == attrs[2..] && IsPublic(attrs[1].0);
    assert PublicValues(attrs[1..]) == [IntVal(4), IntVal(3), IntVal(1)];
    assert attrs[0..] == attrs && attrs[0..][1..] == attrs[1..] && IsPublic(attrs[0].0);
  }

  lemma ContTypeBuilds()
    ensures EnumProperty(ContentTypeClass, NoneVal, false) == Ok(ContTypeField)
  {
    ContentTypeMembers();
  }

  /** The content-type field takes None or a value equal to 1, 2, 3 or 4;
      since `True == 1` in Python, True is taken as `ROOT`. */
  lemma ContTypeAccepts(v: Value)
    ensures Admits(ContTypeField, v) <==> v == NoneVal || ((v.BoolVal? || v.IntVal?) && 1 <= Number(v) <= 4)
  {
    var ms := [IntVal(2), IntVal(4), IntVal(3), IntVal(1)];
    if (v.BoolVal? || v.IntVal?) && 1 <= Number(v) <= 4 {
      var i := if Number(v) == 2 then 0 else if Number(v) == 4 then 1 else if Number(v) == 3 then 2 else 3;
      assert Equals(v, ms[i]);
    }
  }

  /** The fields each class declares, by name. */
  function Schema(kind: EntityKind): map<FieldName, Field> {
    match kind
    case ContainerEntity =>
      map[ActiveSlot := ActiveField, ContTypeSlot := ContTypeField, MenuParentSlot := StrField,
          MenuChildrenSlot := StrListField, AttributesSlot := StrListField]
    case AttribNameEntity(_, _) => map[ActiveSlot := ActiveField, TextSlot := StrField]
  }

  /** Every value a record holds belongs to a declared field and conforms to it. */
  ghost predicate WellShaped(e: Entity) {
    forall n | n in e.slots :: n in Schema(e.kind) && Conforms(Schema(e.kind)[n], e.slots[n])
  }

  function Active(e: Entity): Value {
    Contents(Properties.Get(ActiveField, e.slots, ActiveSlot))
  }

  function ContType(e: Entity): Value {
    Contents(Properties.Get(ContTypeField, e.slots, ContTypeSlot))
  }

  function MenuParent(e: Entity): Value {
    Contents(Properties.Get(StrField, e.slots, MenuParentSlot))
  }

  function Text(e: Entity): Value {
    Contents(Properties.Get(StrField, e.slots, TextSlot))
  }

  function Children(e: Entity): seq<Value> {
    match Properties.Get(StrListField, e.slots, MenuChildrenSlot)
    case Listed(lv) => lv.items
    case Plain(_) => []
  }

  function Attributes(e: Entity): seq<Value> {
    match Properties.Get(StrListField, e.slots, AttributesSlot)
    case Listed(lv) => lv.items
    case Plain(_) => []
  }

  /** Every child key a container lists names a stored record. */
  ghost predicate ChildrenStored(st: Store) {
    forall k | k in st.records && st.records[k].kind.ContainerEntity? ::
      forall v | v in Children(st.records[k]) :: v.StrVal? && v.s in st.records
  }

  /** Every record is stored under its own key and is well shaped. */
  ghost predicate Shaped(st: Store) {
    && DictStore.Valid(st)
    && (forall k | k in st.records :: WellShaped(st.records[k]))
  }

  /** The invariant the store keeps under `create`. */
  ghost predicate Consistent(st: Store) {
    Shaped(st) && ChildrenStored(st)
  }

  /** Storing a well-shaped record keeps every record well shaped. */
  lemma PutKeepsShaped(st: Store, e: Entity)
    requires Shaped(st)
    requires e.key.None? || e.key.value == RootKey || e.key.value in st.records
    requires WellShaped(e)
    ensures Shaped(Put(st, e).0)
  {
  }

  /** Storing a well-shaped record whose children are already stored keeps
      the store consistent. */
  lemma PutKeepsConsistent(st: Store, e: Entity)
    requires Consistent(st)
    requires e.key.None? || e.key.value == RootKey || e.key.value in st.records
    requires WellShaped(e)
    requires e.kind.ContainerEntity? ==> forall v | v in Children(e) :: v.StrVal? && v.s in st.records
    ensures Consistent(Put(st, e).0)
  {
    var (st', k) := Put(st, e);
    forall q | q in st'.records && st'.records[q].kind.ContainerEntity?
      ensures forall v | v in Children(st'.records[q]) :: v.StrVal? && v.s in st'.records
    {
      if q != k {
        assert st'.records[q] == st.records[q];
      }
    }
  }

  /** The empty dictionary with the counter at 0 is consistent. */
  lemma EmptyIsConsistent()
    ensures Consistent(Empty)
  {
  }

  /** `Container(key=..., active=..., contType=..., menuParent=...,
      menuChildren=...)`: each keyword goes through its field's `__set__`,
      so the instance holds exactly the four values it was given. */
  function NewContainer(key: Option<string>, active: Value, contType: Value, menuParent: Value, menuChildren: Value): (r: Result<Entity>)
    ensures r.Ok? <==>
              Admits(ActiveField, active) && Admits(ContTypeField, contType) &&
              Admits(StrField, menuParent) && Admits(StrListField, menuChildren)
    ensures r.Err? ==> r.error == TypeError
    ensures r.Ok? ==>
              && r.value.key == key && r.value.kind == ContainerEntity
              && r.value.slots == map[ActiveSlot := Plain(active), ContTypeSlot := Plain(contType),
                                      MenuParentSlot := Plain(menuParent),
                                      MenuChildrenSlot := Listed(ListValue(StringType, menuChildren.items))]
  {
    var s1 :- Set(ActiveField, map[], ActiveSlot, active);
    var s2 :- Set(ContTypeField, s1, ContTypeSlot, contType);
    var s3 :- Set(StrField, s2, MenuParentSlot, menuParent);
    var s4 :- Set(StrListField, s3, MenuChildrenSlot, menuChildren);
    Ok(Entity(key, ContainerEntity, s4))
  }

  /** A newly built container is well shaped and reads back each value it
      was given, with no attributes. */
  lemma NewContainerFields(key: Option<string>, active: Value, contType: Value, menuParent: Value, menuChildren: Value)
    requires NewContainer(key, active, contType, menuParent, menuChildren).Ok?
    ensures var e := NewContainer(key, active, contType, menuParent, menuChildren).value;
            && WellShaped(e)
            && Active(e) == active && ContType(e) == contType && MenuParent(e) == menuParent
            && ListVal(Children(e)) == menuChildren && Attributes(e) == []
  {
  }

  /** `AttribName(parent=..., text=..., authur=...)`. */
  function NewAttribName(parent: Option<string>, text: Value, author: User): (r: Result<Entity>)
    ensures r.Ok? <==> Admits(StrField, text)
    ensures r.Ok? ==>
              r.value.key.None? && r.value.kind == AttribNameEntity(parent, author) &&
              WellShaped(r.value) && Text(r.value) == text
  {
    var s :- Set(StrField, map[], TextSlot, text);
    Ok(Entity(None, AttribNameEntity(parent, author), s))
  }

  /** What an `Element` exposes after a lookup or a create: the single-key
      view (`key`, `container`) and the multi-key view (`keys`, `containers`). */
  datatype View = View(key: Option<string>, container: Option<Entity>, keys: seq<string>, containers: seq<Entity>)

  const Unset: View := View(None, None, [], [])

  /** The content-type filter: None means no filter, a list is a set of
      accepted types, and any other value is wrapped into a one-item list. */
  function TypeFilter(v: Value): (r: Option<seq<Value>>)
    ensures v == NoneVal <==> r.None?
    ensures v.ListVal? ==> r == Some(v.items)
    ensures v != NoneVal && !v.ListVal? ==> r == Some([v])
  {
    if v == NoneVal then None else if v.ListVal? then Some(v.items) else Some([v])
  }

  /** Whether a record passes the filters. The active flag is compared first;
      a Name attribute has no `contType`, so a type filter on it raises
      AttributeError. */
  function Passes(e: Entity, active: Value, types: Option<seq<Value>>): (r: Result<bool>)
    ensures r.Err? <==>
              (active == NoneVal || Equals(Active(e), active)) && types.Some? && !e.kind.ContainerEntity?
    ensures r.Err? ==> r.error == AttributeError
    ensures r == Ok(true) <==>
              (active == NoneVal || Equals(Active(e), active)) &&
              (types.None? || (e.kind.ContainerEntity? && IsMember(ContType(e), types.value)))
  {
    if active != NoneVal && !Equals(Active(e), active) then Ok(false)
    else if types.None? then Ok(true)
    else if !e.kind.ContainerEntity? then Err(AttributeError)
    else Ok(IsMember(ContType(e), types.value))
  }

  /** `lookupSingle` on a fresh element: the key and record are exposed only
      when the key is stored and the record passes both filters. */
  function LookupSingle(st: Store, k: string, active: Value, types: Option<seq<Value>>): (r: Result<View>)
    ensures r.Err? <==> k in st.records && Passes(st.records[k], active, types).Err?
    ensures r.Ok? ==> r.value.keys == [] && r.value.containers == []
    ensures r.Ok? ==> (r.value.key.Some? <==> k in st.records && Passes(st.records[k], active, types) == Ok(true))
    ensures r.Ok? && r.value.key.Some? ==> r.value.key == Some(k) && r.value.container == Some(st.records[k])
    ensures r.Ok? && r.value.key.None? ==> r.value.container.None?
  {
    if k !in st.records then Ok(Unset)
    else
      var e := st.records[k];
      match Passes(e, active, types)
      case Err(x) => Err(x)
      case Ok(pass) => if pass then Ok(View(Some(k), Some(e), [], [])) else Ok(Unset)
  }

  predicate NoDup<T(==)>(s: seq<T>) {
    forall i, j | 0 <= i < j < |s| :: s[i] != s[j]
  }

  /** The distinct strings among xs, in order of first occurrence; the other
      values are dropped. */
  function DistinctStrings(xs: seq<Value>): (ds: seq<string>)
    ensures NoDup(ds)
    ensures forall s :: s in ds <==> StrVal(s) in xs
  {
    if |xs| == 0 then []
    else
      var init := DistinctStrings(xs[..|xs| - 1]);
      var last := xs[|xs| - 1];
      assert xs == xs[..|xs| - 1] + [last];
      if last.StrVal? && last.s !in init then init + [last.s] else init
  }

  /** The matching records among ks, in order; the first record whose filter
      raises makes the whole lookup raise. */
  function Collect(st: Store, ks: seq<string>, active: Value, types: Option<seq<Value>>): (r: Result<(seq<string>, seq<Entity>)>)
    ensures r.Err? <==> exists k | k in ks :: k in st.records && Passes(st.records[k], active, types).Err?
    ensures r.Ok? ==> |r.value.0| == |r.value.1|
    ensures r.Ok? ==> forall i | 0 <= i < |r.value.0| ::
              r.value.0[i] in ks && r.value.0[i] in st.records &&
              r.value.1[i] == st.records[r.value.0[i]] && Passes(r.value.1[i], active, types) == Ok(true)
    ensures r.Ok? ==> forall k | k in ks && k in st.records && Passes(st.records[k], active, types) == Ok(true) ::
              k in r.value.0
    ensures r.Ok? && NoDup(ks) ==> NoDup(r.value.0)
  {
    if |ks| == 0 then Ok(([], []))
    else
      var init := ks[..|ks| - 1];
      var k := ks[|ks| - 1];
      assert ks == init + [k];
      match Collect(st, init, active, types)
      case Err(x) => Err(x)
      case Ok(acc) =>
        if k !in st.records then Ok(acc)
        else
          match Passes(st.records[k], active, types)
          case Err(x) => Err(x)
          case Ok(pass) =>
            if !pass then Ok(acc)
            else
              Ok((acc.0 + [k], acc.1 + [st.records[k]]))
  }

  /** `lookupMultiple` on a fresh element: keys are de-duplicated (a list
      among them is unhashable and raises TypeError), non-strings dropped,
      absent keys skipped, and the records passing both filters kept. */
  function LookupMultiple(st: Store, xs: seq<Value>, active: Value, types: Option<seq<Value>>): (r: Result<View>)
    ensures (exists i | 0 <= i < |xs| :: xs[i].ListVal?) ==> r == Err(TypeError)
    ensures r.Ok? ==> r.value.key.None? && r.value.container.None?
    ensures r.Ok? ==> |r.value.keys| == |r.value.containers| && NoDup(r.value.keys)
    ensures r.Ok? ==> forall i | 0 <= i < |r.value.keys| ::
              StrVal(r.value.keys[i]) in xs && r.value.keys[i] in st.records &&
              r.value.containers[i] == st.records[r.value.keys[i]] &&
              Passes(r.value.containers[i], active, types) == Ok(true)
    ensures r.Ok? ==> forall s | StrVal(s) in xs && s in st.records && Passes(st.records[s], active, types) == Ok(true) ::
              s in r.value.keys
  {
    if exists i | 0 <= i < |xs| :: xs[i].ListVal? then Err(TypeError)
    else
      var ks := DistinctStrings(xs);
      match Collect(st, ks, active, types)
      case Err(x) => Err(x)
      case Ok(found) => Ok(View(None, None, found.0, found.1))
  }

  /** `'ndb_%s_%s' % (key.kind(), key.id())`: the dictionary key an
      `ndb.Key` is looked up under. */
  function NdbKeyText(kind: string, id: nat): string {
    "ndb_" + kind + "_" + Decimal(id)
  }

  /** The characters after the last underscore (all of s if it has none). */
  function AfterLastUnderscore(s: string): (t: string)
    ensures |t| <= |s| && t == s[|s| - |t|..]
  {
    if |s| == 0 || s[|s| - 1] == '_' then []
    else AfterLastUnderscore(s[..|s| - 1]) + [s[|s| - 1]]
  }

  /** Behind an underscore, a run of characters without one is what
      follows the last underscore. */
  lemma {:induction false} AfterLastUnderscoreOf(p: string, d: string)
    requires forall i | 0 <= i < |d| :: d[i] != '_'
    ensures AfterLastUnderscore(p + "_" + d) == d
  {
    var s := p + "_" + d;
    if |d| > 0 {
      var d0 := d[..|d| - 1];
      assert s[..|s| - 1] == p + "_" + d0;
      AfterLastUnderscoreOf(p, d0);
      assert d == d0 + [d[|d| - 1]];
    }
  }

  /** Text split at its last underscore: equal texts whose tails have no
      underscore have equal heads and equal tails. */
  lemma SplitAtLastUnderscore(p1: string, d1: string, p2: string, d2: string)
    requires forall i | 0 <= i < |d1| :: d1[i] != '_'
    requires forall i | 0 <= i < |d2| :: d2[i] != '_'
    requires p1 + "_" + d1 == p2 + "_" + d2
    ensures d1 == d2 && p1 == p2
  {
    AfterLastUnderscoreOf(p1, d1);
    AfterLastUnderscoreOf(p2, d2);
    var s := p1 + "_" + d1;
    assert s[..|p1|] == p1;
    assert s[..|p2|] == p2;
  }

  /** Different ndb keys are looked up under different texts. */
  lemma NdbKeyTextInjective(k1: string, i1: nat, k2: string, i2: nat)
    requires NdbKeyText(k1, i1) == NdbKeyText(k2, i2)
    ensures k1 == k2 && i1 == i2
  {
    var d1 := Decimal(i1);
    var d2 := Decimal(i2);
    assert NdbKeyText(k1, i1) == ("ndb_" + k1) + "_" + d1;
    assert NdbKeyText(k2, i2) == ("ndb_" + k2) + "_" + d2;
    SplitAtLastUnderscore("ndb_" + k1, d1, "ndb_" + k2, d2);
    DecimalInjective(i1, i2);
    assert k1 == ("ndb_" + k1)[4..] == ("ndb_" + k2)[4..] == k2;
  }

  /** No ndb key's text is a counter key or the root key, so such keys
      never meet the records `create` makes. */
  lemma NdbKeyTextNotMade(k: string, i: nat, n: nat)
    ensures NdbKeyText(k, i) != RootKey && NdbKeyText(k, i) != MakeKey(n)
  {
    assert NdbKeyText(k, i)[0] == 'n';
    assert RootKey[0] == 'd' && MakeKey(n)[0] == 'd';
  }

  /** `Element.lookup`: an `ndb.Key` is turned into its dictionary key
      first; a str key is then looked up alone, a list of keys together, and
      anything else raises TypeError. */
  function Lookup(st: Store, key: Value, active: Value, contType: Value): (r: Result<View>)
    ensures key.StrVal? ==> r == LookupSingle(st, key.s, active, TypeFilter(contType))
    ensures key.KeyVal? ==> r == LookupSingle(st, NdbKeyText(key.kind, key.id), active, TypeFilter(contType))
    ensures key.ListVal? ==> r == LookupMultiple(st, key.items, active, TypeFilter(contType))
    ensures !key.StrVal? && !key.KeyVal? && !key.ListVal? ==> r == Err(TypeError)
  {
    var types := TypeFilter(contType);
    var key := if key.KeyVal? then StrVal(NdbKeyText(key.kind, key.id)) else key;
    if key.StrVal? then LookupSingle(st, key.s, active, types)
    else if key.ListVal? then LookupMultiple(st, key.items, active, types)
    else Err(TypeError)
  }

  /** A key is returned by a multiple lookup exactly when a single lookup of
      it with the same filters finds it. */
  lemma MultipleAgreesWithSingle(st: Store, xs: seq<Value>, active: Value, types: Option<seq<Value>>, s: string)
    requires LookupMultiple(st, xs, active, types).Ok?
    requires StrVal(s) in xs
    ensures LookupSingle(st, s, active, types).Ok?
    ensures s in LookupMultiple(st, xs, active, types).value.keys <==> LookupSingle(st, s, active, types).value.key == Some(s)
  {
    var ks := DistinctStrings(xs);
    assert s in ks;
    var m := LookupMultiple(st, xs, active, types);
    if s in m.value.keys {
      var i :| 0 <= i < |m.value.keys| && m.value.keys[i] == s;
    }
  }

  /** The `menuParent` argument of `create`. */
  datatype ParentArg =
      /** a key string */
    | KeyText(s: string)
      /** an object with a `key` attribute, such as an `Element` or a stored record */
    | WithKey(key: Value)
      /** anything else: None, a number, a list */
    | WithoutKey

  /** The parent's key, after looking it up again in the store (an
      `ndb.Key` in the parent's `key` attribute is converted as `lookup`
      converts it); a parent that is not a stored container raises
      TypeError, one without a key attribute raises AttributeError. */
  function ResolveParent(st: Store, p: ParentArg): (r: Result<string>)
    ensures r.Ok? ==> r.value in st.records && st.records[r.value].kind.ContainerEntity?
    ensures p.KeyText? ==> (r.Ok? <==> p.s in st.records && st.records[p.s].kind.ContainerEntity?)
    ensures p.KeyText? && r.Ok? ==> r.value == p.s
    ensures p.WithKey? && p.key.KeyVal? ==>
              var t := NdbKeyText(p.key.kind, p.key.id);
              r == if t in st.records && st.records[t].kind.ContainerEntity? then Ok(t) else Err(TypeError)
    ensures p.WithoutKey? || (p.WithKey? && p.key == NoneVal) ==> r == Err(AttributeError)
  {
    var k :-
      match p
      case KeyText(s) => Ok(s)
      case WithKey(v) =>
        if v.StrVal? then Ok(v.s)
        else if v.KeyVal? then Ok(NdbKeyText(v.kind, v.id))
        else if v == NoneVal then Err(AttributeError)
        else Err(TypeError)
      case WithoutKey => Err(AttributeError);
    if k in st.records && st.records[k].kind.ContainerEntity? then Ok(k) else Err(TypeError)
  }

  datatype Outcome = Outcome(store: Store, view: View)

  /** The parent's side of a child create: the child key is appended to
      `menuChildren` through the append `list` provides (nothing checks it),
      and the parent is marked active. */
  function AdoptChild(parent: Entity, k: string): (r: Result<Entity>)
    requires WellShaped(parent) && parent.kind.ContainerEntity?
    ensures r.Ok?
    ensures var q := r.value;
              && q.key == parent.key && q.kind == parent.kind && WellShaped(q)
              && Children(q) == Children(parent) + [StrVal(k)] && Active(q) == BoolVal(true)
              && ContType(q) == ContType(parent) && MenuParent(q) == MenuParent(parent)
              && Attributes(q) == Attributes(parent)
  {
    var lv := Properties.Get(StrListField, parent.slots, MenuChildrenSlot).lv;
    var lv' := AppendAsWritten(lv, StrVal(k));
    assert lv'.items == lv.items + [StrVal(k)];
    assert Conforms(StrListField, Listed(lv'));
    var slots0 := parent.slots[MenuChildrenSlot := Listed(lv')];
    var slots := Set(ActiveField, slots0, ActiveSlot, BoolVal(true)).value;
    assert slots == slots0[ActiveSlot := Plain(BoolVal(true))];
    Ok(parent.(slots := slots))
  }

  /** `root.attributes = [attributeKey]` */
  function AttachAttribute(root: Entity, ak: string): (r: Result<Entity>)
    requires WellShaped(root) && root.kind.ContainerEntity?
    ensures r.Ok?
    ensures var q := r.value;
              && q.key == root.key && q.kind == root.kind && WellShaped(q)
              && Attributes(q) == [StrVal(ak)] && Children(q) == Children(root)
              && Active(q) == Active(root) && ContType(q) == ContType(root) && MenuParent(q) == MenuParent(root)
  {
    var slots := Set(StrListField, root.slots, AttributesSlot, ListVal([StrVal(ak)])).value;
    Ok(root.(slots := slots))
  }

  /** Root bootstrap by an administrator on a store without a root: an
      active, parentless, childless root whose one attribute key is fresh. */
  ghost predicate RootBootstrapped(st: Store, out: Outcome, contType: Value) {
    var recs := out.store.records;
    && RootKey in recs
    && var root := recs[RootKey];
    && root.kind.ContainerEntity?
    && Active(root) == BoolVal(true) && ContType(root) == contType
    && MenuParent(root) == NoneVal && Children(root) == []
    && Attributes(root) == [StrVal(MakeKey(st.counter + 1))]
    && out.view == View(Some(RootKey), Some(root), [], [])
  }

  /** The root's one attribute is a Name attribute with text "root", and
      nothing else is added or changed. */
  ghost predicate RootNamed(st: Store, out: Outcome, u: User) {
    var recs := out.store.records;
    var ak := MakeKey(st.counter + 1);
    && ak in recs && ak !in st.records && ak != RootKey
    && recs[ak].kind == AttribNameEntity(Some(RootKey), u) && Text(recs[ak]) == StrVal("root")
  }

  /** Only the root and its Name attribute are added; nothing else changes. */
  ghost predicate OnlyRootAdded(st: Store, out: Outcome) {
    var recs := out.store.records;
    && recs.Keys == st.records.Keys + {RootKey, MakeKey(st.counter + 1)}
    && (forall k | k in st.records :: recs[k] == st.records[k])
  }

  /** The root container `create` stores first: active, parentless,
      childless, without attributes. */
  function RootContainer(contType: Value): (r: Entity)
    requires Equals(contType, Root)
    ensures r.key == Some(RootKey) && r.kind.ContainerEntity? && WellShaped(r)
    ensures Active(r) == BoolVal(true) && ContType(r) == contType && MenuParent(r) == NoneVal
    ensures Children(r) == [] && Attributes(r) == []
  {
    ContTypeAccepts(contType);
    NewContainerFields(Some(RootKey), BoolVal(true), contType, NoneVal, ListVal([]));
    NewContainer(Some(RootKey), BoolVal(true), contType, NoneVal, ListVal([])).value
  }

  /** The Name attribute "root" that names the root. */
  function RootName(user: User): (r: Entity)
    ensures r.key.None? && r.kind == AttribNameEntity(Some(RootKey), user) && WellShaped(r)
    ensures Text(r) == StrVal("root")
  {
    NewAttribName(Some(RootKey), StrVal("root"), user).value
  }

  /** The next counter key is neither in use nor the root key. */
  lemma NextKeyFresh(st: Store)
    requires DictStore.Valid(st)
    ensures MakeKey(st.counter + 1) !in st.records && MakeKey(st.counter + 1) != RootKey
  {
    MakeKeyDistinct(st.counter + 1, st.counter + 1);
  }

  /** The administrator's bootstrap: store the root, store its Name
      attribute under the next counter key, then store the root again with
      that key as its one attribute. */
  function BootstrapRoot(st: Store, user: User, contType: Value): (r: Store)
    requires Equals(contType, Root)
    ensures var ak := MakeKey(st.counter + 1);
            && r.counter == st.counter + 1
            && r.records == st.records[RootKey := RootContainer(contType)]
                                      [ak := RootName(user).(key := Some(ak))]
                                      [RootKey := AttachAttribute(RootContainer(contType), ak).value.(key := Some(RootKey))]
  {
    var root := RootContainer(contType);
    assert root.(key := Some(RootKey)) == root;
    var st1 := Put(st, root).0;
    var (st2, ak) := Put(st1, RootName(user));
    var root' := AttachAttribute(root, ak).value;
    Put(st2, root').0
  }

  /** The bootstrap keeps every record under its own key and leaves the
      counter ahead of every key it made. */
  lemma BootstrapRootValid(st: Store, user: User, contType: Value)
    requires DictStore.Valid(st)
    requires Equals(contType, Root)
    requires RootKey !in st.records
    ensures DictStore.Valid(BootstrapRoot(st, user, contType))
  {
    var root := RootContainer(contType);
    var st1 := Put(st, root).0;
    var (st2, ak) := Put(st1, RootName(user));
    var root' := AttachAttribute(root, ak).value;
    assert BootstrapRoot(st, user, contType) == Put(st2, root').0;
  }

  /** The root branch of `create`: only an administrator bootstraps, and only
      once; every caller ends with the root key and whatever is stored there. */
  function CreateRoot(st: Store, user: User, isAdmin: bool, contType: Value): (r: Result<Outcome>)
    requires DictStore.Valid(st)
    requires Equals(contType, Root)
    ensures r.Ok?
    ensures DictStore.Valid(r.value.store)
    ensures !isAdmin || RootKey in st.records ==>
              r.value == Outcome(st, View(Some(RootKey), if RootKey in st.records then Some(st.records[RootKey]) else None, [], []))
  {
    if isAdmin && RootKey !in st.records then
      BootstrapRootValid(st, user, contType);
      var st' := BootstrapRoot(st, user, contType);
      Ok(Outcome(st', View(Some(RootKey), Some(st'.records[RootKey]), [], [])))
    else
      Ok(Outcome(st, View(Some(RootKey), if RootKey in st.records then Some(st.records[RootKey]) else None, [], [])))
  }

  /** The root branch keeps every stored record well shaped and every listed
      child stored. */
  lemma CreateRootKeepsConsistent(st: Store, user: User, isAdmin: bool, contType: Value)
    requires Consistent(st)
    requires Equals(contType, Root)
    ensures Consistent(CreateRoot(st, user, isAdmin, contType).value.store)
  {
    if isAdmin && RootKey !in st.records {
      var root := RootContainer(contType);
      var st1 := Put(st, root).0;
      PutKeepsConsistent(st, root);
      var (st2, ak) := Put(st1, RootName(user));
      PutKeepsConsistent(st1, RootName(user));
      var root' := AttachAttribute(root, ak).value;
      PutKeepsConsistent(st2, root');
      assert BootstrapRoot(st, user, contType) == Put(st2, root').0;
    }
  }

  /** An administrator's root create on a store without a root stores an
      active, parentless, childless root. */
  lemma CreateRootBootstraps(st: Store, user: User, contType: Value)
    requires DictStore.Valid(st)
    requires Equals(contType, Root)
    requires RootKey !in st.records
    ensures RootBootstrapped(st, CreateRoot(st, user, true, contType).value, contType)
  {
    var ak := MakeKey(st.counter + 1);
    NextKeyFresh(st);
    var recs := BootstrapRoot(st, user, contType).records;
    assert recs[RootKey] == AttachAttribute(RootContainer(contType), ak).value.(key := Some(RootKey));
  }

  /** ... and names it "root" through one new Name attribute ... */
  lemma CreateRootNamesRoot(st: Store, user: User, contType: Value)
    requires DictStore.Valid(st)
    requires Equals(contType, Root)
    requires RootKey !in st.records
    ensures RootNamed(st, CreateRoot(st, user, true, contType).value, user)
  {
    var ak := MakeKey(st.counter + 1);
    NextKeyFresh(st);
    var recs := BootstrapRoot(st, user, contType).records;
    assert CreateRoot(st, user, true, contType).value.store.records == recs;
    var name := RootName(user);
    assert recs[ak] == name.(key := Some(ak));
    assert Text(recs[ak]) == Text(name);
  }

  /** ... touching nothing else. */
  lemma CreateRootAddsOnlyRoot(st: Store, user: User, contType: Value)
    requires DictStore.Valid(st)
    requires Equals(contType, Root)
    requires RootKey !in st.records
    ensures OnlyRootAdded(st, CreateRoot(st, user, true, contType).value)
  {
    var ak := MakeKey(st.counter + 1);
    NextKeyFresh(st);
    var recs := BootstrapRoot(st, user, contType).records;
    assert CreateRoot(st, user, true, contType).value.store.records == recs;
    var root := RootContainer(contType);
    ThreePutsShape(st.records, RootKey, root, ak, RootName(user).(key := Some(ak)),
                   AttachAttribute(root, ak).value.(key := Some(RootKey)));
  }

  /** Storing under two fresh keys, and then again under the first, adds
      exactly those two keys and changes no other entry. */
  lemma ThreePutsShape(recs: map<string, Entity>, r: string, x: Entity, a: string, y: Entity, z: Entity)
    requires r !in recs && a !in recs
    ensures var recs' := recs[r := x][a := y][r := z];
            && recs'.Keys == recs.Keys + {r, a}
            && forall k | k in recs :: recs'[k] == recs[k]
  {
  }

  /** Bootstrapping happens once: a later root create, by anyone, changes
      nothing and lands on the same root. */
  lemma RootBootstrappedOnce(st: Store, admin: User, user: User, isAdmin: bool, contType: Value, contType': Value)
    requires DictStore.Valid(st)
    requires Equals(contType, Root) && Equals(contType', Root)
    requires RootKey !in st.records
    ensures var first := CreateRoot(st, admin, true, contType).value;
            var again := CreateRoot(first.store, user, isAdmin, contType').value;
            again.store == first.store && again.view == first.view
  {
    CreateRootBootstraps(st, admin, contType);
  }

  /** How many times v occurs in xs. */
  function Occurrences(xs: seq<Value>, v: Value): nat {
    if |xs| == 0 then 0 else Occurrences(xs[..|xs| - 1], v) + (if xs[|xs| - 1] == v then 1 else 0)
  }

  lemma OccurrencesAppend(xs: seq<Value>, v: Value, w: Value)
    ensures Occurrences(xs + [w], v) == Occurrences(xs, v) + (if w == v then 1 else 0)
  {
    assert (xs + [w])[..|xs|] == xs;
  }

  lemma {:induction false} OccurrencesAbsent(xs: seq<Value>, v: Value)
    requires v !in xs
    ensures Occurrences(xs, v) == 0
  {
    if |xs| > 0 {
      OccurrencesAbsent(xs[..|xs| - 1], v);
    }
  }

  /** The key a successful child create stores the new container under. */
  function ChildKey(st: Store): string {
    MakeKey(st.counter + 1)
  }

  /** Whether a child key is already among the parent's children; `in` on
      a str compares with `==`, which for a str is equality. */
  predicate Lists(parent: Entity, k: string) {
    StrVal(k) in Children(parent)
  }

  /** Storing a new container under the next counter key and then, unless
      the parent already lists that key, the parent that adopts it. */
  function LinkChild(st: Store, p: string, child: Entity): (r: Outcome)
    requires Shaped(st)
    requires p in st.records && st.records[p].kind.ContainerEntity?
    requires child.key.None? && child.kind.ContainerEntity? && WellShaped(child) && Children(child) == []
    ensures var k := ChildKey(st);
            var stored := st.records[k := child.(key := Some(k))];
            && k !in st.records && k != p
            && r.store.counter == st.counter + 1
            && r.store.records == (if Lists(st.records[p], k) then stored
                                   else stored[p := AdoptChild(st.records[p], k).value.(key := Some(p))])
            && r.view == View(Some(k), Some(r.store.records[k]), [], [])
    ensures ChildKey(st) in r.store.records && r.store.records[ChildKey(st)] == child.(key := Some(ChildKey(st)))
    ensures Shaped(r.store)
  {
    var (st1, k) := Put(st, child);
    PutKeepsShaped(st, child);
    if Lists(st.records[p], k) then
      Outcome(st1, View(Some(k), Some(st1.records[k]), [], []))
    else
      var parent' := AdoptChild(st1.records[p], k).value;
      var st2 := Put(st1, parent').0;
      PutKeepsShaped(st1, parent');
      Outcome(st2, View(Some(k), Some(st2.records[k]), [], []))
  }

  /** Linking a child keeps every listed child key stored. */
  lemma LinkChildKeepsConsistent(st: Store, p: string, child: Entity)
    requires Consistent(st)
    requires p in st.records && st.records[p].kind.ContainerEntity?
    requires child.key.None? && child.kind.ContainerEntity? && WellShaped(child) && Children(child) == []
    ensures Consistent(LinkChild(st, p, child).store)
  {
    var (st1, k) := Put(st, child);
    PutKeepsConsistent(st, child);
    var parent := st1.records[p];
    if !Lists(st.records[p], k) {
      assert forall v | v in Children(parent) :: v.StrVal? && v.s in st.records;
      var parent' := AdoptChild(parent, k).value;
      PutKeepsConsistent(st1, parent');
      assert LinkChild(st, p, child).store == Put(st1, parent').0;
    }
  }

  /** The child branch of `create`: the parent is looked up again; the new
      container (inactive unless asked otherwise) points at the parent, and
      a parent that does not list the fresh key yet gains it at the end of
      its children and becomes active. */
  function CreateChild(st: Store, active: Value, contType: Value, menuParent: ParentArg): (r: Result<Outcome>)
    requires Shaped(st)
    ensures r.Ok? <==>
              ResolveParent(st, menuParent).Ok? &&
              Admits(ActiveField, if active == NoneVal then BoolVal(false) else active) &&
              Admits(ContTypeField, contType)
    ensures r.Err? ==> r.error != KeyError
    ensures r.Err? ==>
              r.error == (if ResolveParent(st, menuParent).Err? then ResolveParent(st, menuParent).error else TypeError)
    ensures r.Ok? ==> Shaped(r.value.store)
  {
    var p :- ResolveParent(st, menuParent);
    var child :- ChildOf(p, active, contType);
    NewContainerFields(None, if active == NoneVal then BoolVal(false) else active, contType, StrVal(p), ListVal([]));
    Ok(LinkChild(st, p, child))
  }

  /** The child branch keeps every listed child key stored. */
  lemma CreateChildKeepsConsistent(st: Store, active: Value, contType: Value, menuParent: ParentArg)
    requires Consistent(st)
    requires CreateChild(st, active, contType, menuParent).Ok?
    ensures Consistent(CreateChild(st, active, contType, menuParent).value.store)
  {
    var p := ResolveParent(st, menuParent).value;
    CreateChildIsLink(st, active, contType, menuParent);
    LinkChildKeepsConsistent(st, p, ChildOf(p, active, contType).value);
  }

  /** Adding a fresh key and then overwriting an existing one adds exactly
      the fresh key and changes no other entry. */
  lemma TwoPutsShape(recs: map<string, Entity>, k: string, c: Entity, p: string, q: Entity)
    requires k !in recs && p in recs
    ensures var recs' := recs[k := c][p := q];
            && recs'.Keys == recs.Keys + {k}
            && forall x | x in recs && x != p :: recs'[x] == recs[x]
  {
  }

  /** The container a child create builds: inactive unless asked
      otherwise, pointing at its parent, with no children. */
  function ChildOf(p: string, active: Value, contType: Value): Result<Entity> {
    NewContainer(None, if active == NoneVal then BoolVal(false) else active, contType, StrVal(p), ListVal([]))
  }

  /** A successful child create is the link of the built container under
      the resolved parent. */
  lemma CreateChildIsLink(st: Store, active: Value, contType: Value, menuParent: ParentArg)
    requires Shaped(st)
    requires CreateChild(st, active, contType, menuParent).Ok?
    ensures var p := ResolveParent(st, menuParent).value;
            var child := ChildOf(p, active, contType);
            && ResolveParent(st, menuParent).Ok?
            && child.Ok? && child.value.key.None? && child.value.kind.ContainerEntity?
            && WellShaped(child.value) && Children(child.value) == []
            && CreateChild(st, active, contType, menuParent) == Ok(LinkChild(st, p, child.value))
  {
    var p := ResolveParent(st, menuParent).value;
    var act := if active == NoneVal then BoolVal(false) else active;
    NewContainerFields(None, act, contType, StrVal(p), ListVal([]));
  }

  /** A child create adds exactly one record, under a fresh key, and
      changes no record but the parent's. */
  lemma CreateChildStoresChild(st: Store, active: Value, contType: Value, menuParent: ParentArg)
    requires Shaped(st)
    requires CreateChild(st, active, contType, menuParent).Ok?
    ensures var out := CreateChild(st, active, contType, menuParent).value;
            var p := ResolveParent(st, menuParent).value;
            var k := ChildKey(st);
            var recs := out.store.records;
            && k !in st.records && k != p
            && recs.Keys == st.records.Keys + {k}
            && (forall q | q in st.records && q != p :: recs[q] == st.records[q])
            && out.store.counter == st.counter + 1
            && out.view == View(Some(k), Some(recs[k]), [], [])
  {
    var p := ResolveParent(st, menuParent).value;
    CreateChildIsLink(st, active, contType, menuParent);
    var child := ChildOf(p, active, contType).value;
    var k := ChildKey(st);
    assert k !in st.records && k != p;
    if !Lists(st.records[p], k) {
      TwoPutsShape(st.records, k, child.(key := Some(k)), p, AdoptChild(st.records[p], k).value.(key := Some(p)));
    }
  }

  /** The new container points back at its parent, has no children or
      attributes, and carries the requested flags. */
  lemma CreateChildFields(st: Store, active: Value, contType: Value, menuParent: ParentArg)
    requires Shaped(st)
    requires CreateChild(st, active, contType, menuParent).Ok?
    ensures var p := ResolveParent(st, menuParent).value;
            var c := CreateChild(st, active, contType, menuParent).value.store.records[ChildKey(st)];
            && c.kind.ContainerEntity?
            && MenuParent(c) == StrVal(p) && Children(c) == [] && Attributes(c) == []
            && Active(c) == (if active == NoneVal then BoolVal(false) else active)
            && ContType(c) == contType
  {
    var p := ResolveParent(st, menuParent).value;
    var act := if active == NoneVal then BoolVal(false) else active;
    CreateChildIsLink(st, active, contType, menuParent);
    NewContainerFields(None, act, contType, StrVal(p), ListVal([]));
    var child := ChildOf(p, active, contType).value;
    var k := ChildKey(st);
    var c := LinkChild(st, p, child).store.records[k];
    assert c == child.(key := Some(k));
    assert c.slots == child.slots;
  }

  /** A parent that already lists the fresh key is neither changed nor
      written again: only the child is added. */
  lemma CreateChildListedKeepsParent(st: Store, active: Value, contType: Value, menuParent: ParentArg)
    requires Shaped(st)
    requires CreateChild(st, active, contType, menuParent).Ok?
    requires Lists(st.records[ResolveParent(st, menuParent).value], ChildKey(st))
    ensures var out := CreateChild(st, active, contType, menuParent).value;
            var p := ResolveParent(st, menuParent).value;
            out.store.records[p] == st.records[p]
  {
    CreateChildIsLink(st, active, contType, menuParent);
  }

  /** On a consistent store the fresh key is never listed yet, so a child
      create lists it exactly once more among the parent's children,
      activates the parent and leaves its other fields alone. */
  lemma CreateChildUpdatesParent(st: Store, active: Value, contType: Value, menuParent: ParentArg)
    requires Consistent(st)
    requires CreateChild(st, active, contType, menuParent).Ok?
    ensures var out := CreateChild(st, active, contType, menuParent).value;
            var p := ResolveParent(st, menuParent).value;
            var k := ChildKey(st);
            var recs := out.store.records;
            && p in recs
            && Children(recs[p]) == Children(st.records[p]) + [StrVal(k)]
            && Occurrences(Children(recs[p]), StrVal(k)) == 1
            && Active(recs[p]) == BoolVal(true)
            && ContType(recs[p]) == ContType(st.records[p])
            && MenuParent(recs[p]) == MenuParent(st.records[p])
            && Attributes(recs[p]) == Attributes(st.records[p])
  {
    var p := ResolveParent(st, menuParent).value;
    var k := ChildKey(st);
    var parent := st.records[p];
    assert forall v | v in Children(parent) :: v.StrVal? && v.s in st.records;
    assert !Lists(parent, k);
    OccurrencesAbsent(Children(parent), StrVal(k));
    OccurrencesAppend(Children(parent), StrVal(k), StrVal(k));
  }

  /** `Element.create` on a fresh element: without a signed-in user nothing
      happens; `ContentType.ROOT` (or anything equal to it) bootstraps the
      root, any other content type creates a child. */
  function Create(st: Store, user: Option<User>, isAdmin: bool, active: Value, contType: Value, menuParent: ParentArg): (r: Result<Outcome>)
    requires Consistent(st)
    ensures user.None? ==> r == Ok(Outcome(st, Unset))
    ensures r.Ok? ==> Consistent(r.value.store)
    ensures user.Some? && Equals(contType, Root) ==> r == CreateRoot(st, user.value, isAdmin, contType)
    ensures user.Some? && !Equals(contType, Root) ==> r == CreateChild(st, active, contType, menuParent)
  {
    if user.None? then Ok(Outcome(st, Unset))
    else if Equals(contType, Root) then
      CreateRootKeepsConsistent(st, user.value, isAdmin, contType);
      CreateRoot(st, user.value, isAdmin, contType)
    else
      var r := CreateChild(st, active, contType, menuParent);
      if r.Ok? then CreateChildKeepsConsistent(st, active, contType, menuParent); r else r
  }
}
