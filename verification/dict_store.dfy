/** The in-memory record store: a dictionary from string keys to records and
    a counter from which fresh keys of the form `dct_<n>` are made. */
module DictStore {
  import opened Wrappers
  import opened PyValue
  import opened Properties

  /** The decimal digit for d. */
  function Digit(d: nat): (c: char)
    requires d < 10
    ensures '0' <= c <= '9'
  {
    (d + '0' as int) as char
  }

  /** `'%s' % n` for a natural number: its decimal digits, most significant first. */
  function Decimal(n: nat): (s: string)
    ensures 1 <= |s|
    ensures forall i | 0 <= i < |s| :: '0' <= s[i] <= '9'
    ensures n < 10 <==> |s| == 1
  {
    if n < 10 then [Digit(n)] else Decimal(n / 10) + [Digit(n % 10)]
  }

  /** Different numbers have different decimal spellings. */
  lemma {:induction false} DecimalInjective(a: nat, b: nat)
    requires Decimal(a) == Decimal(b)
    ensures a == b
  {
    if a >= 10 && b >= 10 {
      var s := Decimal(a);
      assert s[..|s| - 1] == Decimal(a / 10);
      assert s[..|s| - 1] == Decimal(b / 10);
      DecimalInjective(a / 10, b / 10);
      assert Digit(a % 10) == s[|s| - 1] == Digit(b % 10);
    } else {
      assert a < 10 && b < 10;
      assert Digit(a) == Decimal(a)[0] == Digit(b);
    }
  }

  /** `DataStore.make_key`. */
  function MakeKey(n: nat): string {
    "dct_" + Decimal(n)
  }

  /** The well-known key of the root container. */
  const RootKey: string := "dct_root"

  /** Keys made from different counter values differ, and none is the root key. */
  lemma MakeKeyDistinct(a: nat, b: nat)
    ensures MakeKey(a) == MakeKey(b) ==> a == b
    ensures MakeKey(a) != RootKey
  {
    if MakeKey(a) == MakeKey(b) {
      assert MakeKey(a)[4..] == Decimal(a);
      assert MakeKey(b)[4..] == Decimal(b);
      DecimalInjective(a, b);
    }
    assert MakeKey(a)[4] == Decimal(a)[0];
    assert RootKey[4] == 'r';
  }

  /** Who wrote a record: containers have no author, a Name attribute
      remembers its parent key and author as plain attributes. */
  datatype EntityKind = ContainerEntity | AttribNameEntity(parent: Option<string>, author: User)

  /** The attributes the record classes declare: `active`, `contType`,
      `menuParent`, `menuChildren`, `attributes` and `text`. */
  datatype FieldName = ActiveSlot | ContTypeSlot | MenuParentSlot | MenuChildrenSlot | AttributesSlot | TextSlot

  /** A `DataStore` record: its key (None until first put), its class, and
      its typed field values. */
  datatype Entity = Entity(key: Option<string>, kind: EntityKind, slots: Slots<FieldName>)

  /** The global dictionary `gContainer` and the counter `gKeyCounter`. */
  datatype Store = Store(records: map<string, Entity>, counter: nat)

  const Empty: Store := Store(map[], 0)

  /** Every record knows its own key. */
  ghost predicate Coherent(st: Store) {
    forall k | k in st.records :: st.records[k].key == Some(k)
  }

  /** No key the counter will still make is in use. */
  ghost predicate Fresh(st: Store) {
    forall n: nat | MakeKey(n) in st.records :: n <= st.counter
  }

  ghost predicate Valid(st: Store) {
    Coherent(st) && Fresh(st)
  }

  /** `DataStore.get`: the key argument, else the record's own key; with
      neither it raises KeyError; an absent key gives None. */
  function Get(st: Store, arg: Option<string>, selfKey: Option<string>): (r: Result<Option<Entity>>)
    ensures r.Err? <==> arg.None? && selfKey.None?
    ensures r.Err? ==> r.error == KeyError
    ensures r.Ok? ==>
              var k := if arg.Some? then arg.value else selfKey.value;
              (r.value.Some? <==> k in st.records) && (r.value.Some? ==> r.value.value == st.records[k])
  {
    var key := if arg.None? then selfKey else arg;
    if key.None? then Err(KeyError)
    else if key.value in st.records then Ok(Some(st.records[key.value]))
    else Ok(None)
  }

  /** `DataStore.put`: a record without a key gets `dct_<n>` for the next
      counter value n; the record is then stored under its key. */
  function Put(st: Store, e: Entity): (r: (Store, string))
    ensures e.key.None? ==> r.1 == MakeKey(st.counter + 1) && r.0.counter == st.counter + 1
    ensures e.key.Some? ==> r.1 == e.key.value && r.0.counter == st.counter
    ensures r.0.records == st.records[r.1 := e.(key := Some(r.1))]
    ensures Valid(st) && e.key.None? ==> r.1 !in st.records
    ensures Valid(st) && (e.key.None? || e.key.value == RootKey || e.key.value in st.records) ==> Valid(r.0)
  {
    var key := if e.key.None? then MakeKey(st.counter + 1) else e.key.value;
    var st' := Store(st.records[key := e.(key := Some(key))], if e.key.None? then st.counter + 1 else st.counter);
    assert Valid(st) && e.key.None? ==> key !in st.records;
    assert Valid(st) && (e.key.None? || e.key.value == RootKey || e.key.value in st.records) ==> Valid(st') by {
      if Valid(st) && (e.key.None? || e.key.value == RootKey || e.key.value in st.records) {
        forall n: nat | MakeKey(n) in st'.records ensures n <= st'.counter {
          if MakeKey(n) != key {
            assert MakeKey(n) in st.records;
          } else if e.key.None? {
            MakeKeyDistinct(n, st.counter + 1);
          } else if e.key.value == RootKey {
            MakeKeyDistinct(n, n);
          }
        }
      }
    }
    (st', key)
  }

  /** A record put into the store is what a later `get` of its key returns,
      and a put of a record without a key never overwrites another record. */
  lemma PutThenGet(st: Store, e: Entity)
    requires Valid(st)
    ensures var (st', k) := Put(st, e);
            Get(st', Some(k), None) == Ok(Some(e.(key := Some(k)))) &&
            (e.key.None? ==> st'.records.Keys == st.records.Keys + {k} && k !in st.records)
  {
  }
}
