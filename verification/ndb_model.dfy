/** The datastore side of the tree: keys with their ancestor paths, the
    record classes `Container`, `AttribName` and `AttribDescription`, the
    datastore as a map from keys to records, ancestor queries, and the
    `Element` object with its `attribs` cache. */
module NdbModel {
  import opened Wrappers

  /** The `Type` enumeration. */
  datatype ContentType = ROOT | AREA | CRAG | CLIMB

  /** The model classes, as a key's `kind()` names them. */
  datatype Kind = ContainerKind | NameKind | DescriptionKind

  /** `AttribName` and `AttribDescription`, the subclasses of `Attrib`. */
  type AttribKind = k: Kind | k != ContainerKind witness NameKind

  function KindName(k: Kind): string {
    match k
    case ContainerKind => "Container"
    case NameKind => "AttribName"
    case DescriptionKind => "AttribDescription"
  }

  /** A non-empty sequence is its prefix followed by its last element. */
  lemma SplitLast<T>(s: seq<T>)
    requires |s| > 0
    ensures s == s[..|s| - 1] + [s[|s| - 1]]
  {
  }

  lemma KindNameInjective(a: Kind, b: Kind)
    ensures KindName(a) == KindName(b) <==> a == b
  {
    if a != b {
      assert KindName(a)[|KindName(a)| - 1] != KindName(b)[|KindName(b)| - 1] || |KindName(a)| != |KindName(b)|;
    }
  }

  /** A container's own id: the name 'root' or an allocated number. */
  datatype ContainerId = RootId | AutoId(n: nat)

  /** A datastore key. Containers have no parent; an attribute's key has its
      owner's key as parent, which is what ancestor queries follow. */
  datatype Key =
    | ContainerKey(cid: ContainerId)
    | AttribKey(parent: Key, kind: AttribKind, id: nat)

  /** `ndb.Key('Container', 'root')` */
  const RootKey: Key := ContainerKey(RootId)

  function KindOf(k: Key): Kind {
    match k
    case ContainerKey(_) => ContainerKind
    case AttribKey(_, kind, _) => kind
  }

  /** k is a, or lies below a on its ancestor path. */
  predicate Descends(k: Key, a: Key)
    decreases k
  {
    k == a || (k.AttribKey? && Descends(k.parent, a))
  }

  /** Every numeric id on k's path lies below n. */
  predicate Allocated(k: Key, n: nat) {
    match k
    case ContainerKey(RootId) => true
    case ContainerKey(AutoId(i)) => i < n
    case AttribKey(p, _, i) => i < n && Allocated(p, n)
  }

  datatype Container = Container(
    active: bool,
    contType: ContentType,
    menuParent: Option<Key>,
    menuChildren: seq<Key>,
    attributes: seq<Key>)

  /** An attribute; its class is its key's kind. `created` and `modified`
      are not modelled. */
  datatype Attrib = Attrib(author: Option<User>, active: bool, text: Option<string>)

  datatype Record = ContainerRec(c: Container) | AttribRec(a: Attrib)

  function RecordActive(r: Record): bool {
    match r
    case ContainerRec(c) => c.active
    case AttribRec(a) => a.active
  }

  /** The datastore: the stored records, the keys in the order a query
      returns them, and the next id the allocator hands out. */
  datatype Db = Db(records: map<Key, Record>, order: seq<Key>, nextId: nat)

  const EmptyDb: Db := Db(map[], [], 1)

  predicate NoDup<T(==)>(s: seq<T>) {
    forall i, j | 0 <= i < j < |s| :: s[i] != s[j]
  }

  /** The keys a container refers to are allocated, and its two key lists
      hold no key twice. */
  predicate LinksAllocated(c: Container, n: nat) {
    && NoDup(c.menuChildren) && NoDup(c.attributes)
    && (forall k | k in c.menuChildren :: Allocated(k, n))
    && (forall k | k in c.attributes :: Allocated(k, n))
    && (c.menuParent.Some? ==> Allocated(c.menuParent.value, n))
  }

  /** What every datastore state satisfies. */
  ghost predicate Valid(db: Db) {
    && (forall k | k in db.records :: k.ContainerKey? <==> db.records[k].ContainerRec?)
    && NoDup(db.order)
    && (forall k :: k in db.order <==> k in db.records)
    && (forall k | k in db.records :: Allocated(k, db.nextId))
    && (forall k | k in db.records && db.records[k].ContainerRec? :: LinksAllocated(db.records[k].c, db.nextId))
  }

  lemma EmptyDbValid()
    ensures Valid(EmptyDb)
  {
  }

  /** Raising the allocation bound keeps a key allocated. */
  lemma {:induction false} AllocatedMonotone(k: Key, n: nat, m: nat)
    requires Allocated(k, n) && n <= m
    ensures Allocated(k, m)
  {
    if k.AttribKey? {
      AllocatedMonotone(k.parent, n, m);
    }
  }

  /** A key made from the next id is not allocated yet. */
  lemma FreshKeyUnallocated(db: Db, k: Key)
    requires k == ContainerKey(AutoId(db.nextId)) || (k.AttribKey? && k.id == db.nextId)
    ensures !Allocated(k, db.nextId)
  {
  }

  /** `entity.put()`: store the record under k. */
  function Put(db: Db, k: Key, r: Record): (db': Db)
    ensures db'.records == db.records[k := r] && db'.nextId == db.nextId
    ensures forall q :: q in db'.order <==> q in db.order || q == k
    ensures NoDup(db.order) ==> NoDup(db'.order)
    ensures (Valid(db) && Allocated(k, db.nextId) && (k.ContainerKey? <==> r.ContainerRec?) &&
             (r.ContainerRec? ==> LinksAllocated(r.c, db.nextId))) ==> Valid(db')
  {
    Db(db.records[k := r], if k in db.order then db.order else db.order + [k], db.nextId)
  }

  /** Take the next id from the allocator. */
  function Allocate(db: Db): (r: (Db, nat))
    ensures r.1 == db.nextId && r.0.nextId == db.nextId + 1
    ensures r.0.records == db.records && r.0.order == db.order
    ensures Valid(db) ==> Valid(r.0)
  {
    var db' := db.(nextId := db.nextId + 1);
    assert Valid(db) ==> Valid(db') by {
      if Valid(db) {
        forall k | k in db.records ensures Allocated(k, db'.nextId) {
          AllocatedMonotone(k, db.nextId, db'.nextId);
        }
        forall k | k in db.records && db.records[k].ContainerRec? ensures LinksAllocated(db.records[k].c, db'.nextId) {
          var c := db.records[k].c;
          forall q | q in c.menuChildren ensures Allocated(q, db'.nextId) {
            AllocatedMonotone(q, db.nextId, db'.nextId);
          }
          forall q | q in c.attributes ensures Allocated(q, db'.nextId) {
            AllocatedMonotone(q, db.nextId, db'.nextId);
          }
          if c.menuParent.Some? {
            AllocatedMonotone(c.menuParent.value, db.nextId, db'.nextId);
          }
        }
      }
    }
    (db', db.nextId)
  }

  /** The items of ks, in order, that pass p. */
  function Filter<T(==,!new)>(ks: seq<T>, p: T -> bool): (r: seq<T>)
    ensures forall k :: k in r <==> k in ks && p(k)
    ensures NoDup(ks) ==> NoDup(r)
    ensures |r| <= |ks|
    ensures (forall i | 0 <= i < |ks| :: p(ks[i])) ==> r == ks
  {
    if |ks| == 0 then []
    else
      var init := Filter(ks[..|ks| - 1], p);
      var k := ks[|ks| - 1];
      assert ks == ks[..|ks| - 1] + [k];
      if p(k) then init + [k] else init
  }

  /** Filtering on the last item of a longer list extends the shorter
      list's result. */
  lemma FilterAppend<T(!new)>(ks: seq<T>, x: T, p: T -> bool)
    ensures Filter(ks + [x], p) == Filter(ks, p) + (if p(x) then [x] else [])
  {
    assert (ks + [x])[..|ks|] == ks;
  }

  /** Filters that agree on every item give the same result. */
  lemma {:induction false} FilterAgree<T(!new)>(ks: seq<T>, p: T -> bool, q: T -> bool)
    requires forall x | x in ks :: p(x) == q(x)
    ensures Filter(ks, p) == Filter(ks, q)
  {
    if |ks| > 0 {
      FilterAgree(ks[..|ks| - 1], p, q);
      assert ks[|ks| - 1] in ks;
    }
  }

  /** Filtering a concatenation filters each part and keeps the parts in
      order: the items that pass keep their relative order and their
      number of occurrences. */
  lemma {:induction false} FilterConcat<T(!new)>(xs: seq<T>, ys: seq<T>, p: T -> bool)
    ensures Filter(xs + ys, p) == Filter(xs, p) + Filter(ys, p)
  {
    if |ys| == 0 {
      assert xs + ys == xs;
    } else {
      var init := ys[..|ys| - 1];
      var y := ys[|ys| - 1];
      var tail := if p(y) then [y] else [];
      assert xs + ys == (xs + init) + [y];
      assert ys == init + [y];
      calc {
        Filter(xs + ys, p);
        { FilterAppend(xs + init, y, p); }
        Filter(xs + init, p) + tail;
        { FilterConcat(xs, init, p); }
        Filter(xs, p) + Filter(init, p) + tail;
        { FilterAppend(init, y, p); }
        Filter(xs, p) + Filter(ys, p);
      }
    }
  }

  /** An item in the middle of a list is kept or dropped on its own, and
      what passes before it stays before it. */
  lemma FilterSplit<T(!new)>(xs: seq<T>, x: T, ys: seq<T>, p: T -> bool)
    ensures Filter(xs + [x] + ys, p) == Filter(xs, p) + (if p(x) then [x] else []) + Filter(ys, p)
  {
    FilterConcat(xs + [x], ys, p);
    FilterAppend(xs, x, p);
  }

  /** `kind.query(ancestor=a)`: the stored keys of that kind at or below a,
      in datastore order. Result limits (`fetch(100)`, `count(100)`,
      `fetch(1000)`) are not modelled. */
  function Query(db: Db, kind: Kind, a: Key): (ks: seq<Key>)
    ensures forall k :: k in ks <==> k in db.order && KindOf(k) == kind && Descends(k, a)
    ensures NoDup(db.order) ==> NoDup(ks)
  {
    Filter(db.order, k => KindOf(k) == kind && Descends(k, a))
  }

  /** A fetched entity as Python holds it: the record with its key. */
  datatype Entity = Entity(key: Key, rec: Record)

  /** The entities under the given keys, in order. */
  function Fetch(db: Db, ks: seq<Key>): (es: seq<Entity>)
    requires forall k | k in ks :: k in db.records
    ensures |es| == |ks|
    ensures forall i | 0 <= i < |ks| :: es[i] == Entity(ks[i], db.records[ks[i]])
    ensures forall e :: e in es <==> e.key in ks && e.rec == db.records[e.key]
    ensures NoDup(ks) ==> NoDup(es)
  {
    if |ks| == 0 then [] else [Entity(ks[0], db.records[ks[0]])] + Fetch(db, ks[1..])
  }

  /** One slot of `Element.attribs`: a class name standing in for instances
      not fetched yet, a list of fetched instances (None marking an
      instance not fetched), or the class object `getAtribTypes` puts
      there for an already-populated list (None standing for `NoneType`). */
  datatype CacheEntry =
    | Placeholder(kind: Kind)
    | Populated(items: seq<Option<Entity>>)
    | ClassEntry(cls: Option<Kind>)

  /** The state of an `Element` object. */
  datatype Element = Element(
    key: Option<Key>,
    container: Option<Record>,
    attribs: Option<seq<CacheEntry>>,
    keys: seq<Key>,
    containers: seq<Record>)

  /** The fields `__init__` sets before it looks up or creates. */
  const Blank: Element := Element(None, None, None, [], [])

  /** What a method on an existing element leaves behind: the datastore
      (unchanged when the method raised, since its transaction rolls back),
      the element (whose in-memory assignments before a raise stay), and
      what it returned or raised. */
  datatype Step<T> = Step(db: Db, elem: Element, result: Result<T>)
}
