/** `Element.addAttrib`, an upsert of an attribute keyed by (container,
    kind, author), the helper `copyAttrib`, and `Element.setAttribActive`,
    which makes one attribute of a kind the active one. */
module NdbAttrib {
  import opened Wrappers
  import opened NdbModel
  import opened AttribCache

  /** An unsaved attribute instance as a caller builds it: its class and
      its properties. */
  datatype Submitted = Submitted(kind: AttribKind, attrib: Attrib)

  /** What `addAttrib` returns: the argument untouched, or the saved
      entity. */
  datatype Returned = Unsaved(sub: Submitted) | Saved(e: Entity)

  /** The stored attribute under k is authored by the user. */
  predicate OwnedBy(db: Db, user: User, k: Key) {
    k in db.records && db.records[k].AttribRec? && db.records[k].a.author == Some(user)
  }

  /** `kind.query(ancestor=a).filter(kind.authur == user)` */
  function Owned(db: Db, kind: Kind, a: Key, user: User): (ks: seq<Key>)
    ensures forall k :: k in ks <==> k in Query(db, kind, a) && OwnedBy(db, user, k)
  {
    Filter(Query(db, kind, a), k => OwnedBy(db, user, k))
  }

  /** The same query's `fetch(1)`: the user's first attribute of the kind
      under a, if any. */
  function FindOwn(db: Db, kind: Kind, a: Key, user: User): (r: Option<Key>)
    ensures r.Some? ==> r.value in Query(db, kind, a) && OwnedBy(db, user, r.value)
    ensures r.None? <==> forall k | k in Query(db, kind, a) :: !OwnedBy(db, user, k)
    ensures r.Some? ==> |Owned(db, kind, a, user)| > 0 && r.value == Owned(db, kind, a, user)[0]
  {
    var owned := Owned(db, kind, a, user);
    if |owned| > 0 then
      assert owned[0] in owned;
      Some(owned[0])
    else None
  }

  /** `copyAttrib`: a new instance of the same class with the same
      properties, owned by parent; the datastore gives it the id on `put`. */
  function CopyAttrib(sub: Submitted, parent: Key, id: nat): (e: Entity)
    ensures e.key.AttribKey? && e.key.parent == parent && KindOf(e.key) == sub.kind
    ensures Descends(e.key, parent)
    ensures e.rec == AttribRec(sub.attrib)
  {
    Entity(AttribKey(parent, sub.kind, id), AttribRec(sub.attrib))
  }

  /** The attribute `put` of `addAttrib`: overwrite the user's existing
      attribute of the kind under container a with `overwrite`, or store a
      copy owned by a and authored by the user under a fresh id. */
  function Save(db: Db, a: Key, user: User, sub: Submitted, overwrite: Attrib): (r: (Db, Entity))
    requires Valid(db) && a in db.records && db.records[a].ContainerRec?
    ensures Valid(r.0)
    ensures r.0.records == db.records[r.1.key := r.1.rec]
    ensures r.1.key in r.0.records && KindOf(r.1.key) == sub.kind && Descends(r.1.key, a) && r.1.key != a
    ensures FindOwn(db, sub.kind, a, user).Some? ==>
              && r.1.key == FindOwn(db, sub.kind, a, user).value
              && r.1.rec == AttribRec(overwrite)
              && r.0.order == db.order && r.0.nextId == db.nextId
    ensures FindOwn(db, sub.kind, a, user).None? ==>
              && r.1.key !in db.records && r.1.key.AttribKey? && r.1.key.parent == a
              && r.1.rec == AttribRec(sub.attrib.(author := Some(user)))
              && r.0.order == db.order + [r.1.key] && r.0.nextId == db.nextId + 1
  {
    match FindOwn(db, sub.kind, a, user)
    case Some(k) =>
      (Put(db, k, AttribRec(overwrite)), Entity(k, AttribRec(overwrite)))
    case None =>
      var (db1, id) := Allocate(db);
      var e := CopyAttrib(Submitted(sub.kind, sub.attrib.(author := Some(user))), a, id);
      assert Allocated(a, db.nextId);
      AllocatedMonotone(a, db.nextId, db1.nextId);
      FreshKeyUnallocated(db, e.key);
      (Put(db1, e.key, e.rec), e)
  }

  /** Link the attribute into container a's `attributes`, unless it is
      there already; the changed container is returned. */
  function Link(db: Db, a: Key, k: Key): (r: (Db, Option<Container>))
    requires Valid(db) && a in db.records && db.records[a].ContainerRec? && k in db.records
    ensures Valid(r.0) && r.0.order == db.order && r.0.nextId == db.nextId
    ensures k in db.records[a].c.attributes <==> r.1.None?
    ensures r.1.None? ==> r.0 == db
    ensures r.1.Some? ==>
              && r.1.value == db.records[a].c.(attributes := db.records[a].c.attributes + [k])
              && r.0.records == db.records[a := ContainerRec(r.1.value)]
  {
    var c := db.records[a].c;
    if k in c.attributes then (db, None)
    else
      var c' := c.(attributes := c.attributes + [k]);
      (Put(db, a, ContainerRec(c')), Some(c'))
  }

  /** The store part both versions of `addAttrib` share once the user, the
      key and the container are there. */
  function Store(db: Db, a: Key, user: User, sub: Submitted, overwrite: Attrib): (r: (Db, Entity, Option<Container>))
    requires Valid(db) && a in db.records && db.records[a].ContainerRec?
    ensures Valid(r.0)
    ensures r.1.key in r.0.records && r.0.records[r.1.key] == r.1.rec
    ensures a in r.0.records && r.0.records[a].ContainerRec? && r.1.key in r.0.records[a].c.attributes
    ensures r.1.key != a
  {
    var (db1, e) := Save(db, a, user, sub, overwrite);
    assert a.ContainerKey?;
    var (db2, linked) := Link(db1, a, e.key);
    (db2, e, linked)
  }

  /** `addAttrib` as the code is written. Without a user it returns its
      argument and writes nothing. Otherwise the key must be set (a query
      without ancestor is refused inside the transaction) and name a
      container (else `tmpContainer.attributes` raises AttributeError and
      the transaction rolls back). An existing attribute of the user's is
      overwritten with every property of the argument, author included;
      otherwise a copy authored by the user is stored. The key is linked
      into the container, and the cache is updated, which can raise and
      roll back the writes after `self.container` was replaced. */
  function AddAttribAsWritten(elem: Element, db: Db, user: Option<User>, sub: Submitted): (r: Step<Returned>)
    requires Valid(db)
    ensures Valid(r.db)
    ensures r.elem.key == elem.key && r.elem.keys == elem.keys && r.elem.containers == elem.containers
    ensures user.None? ==> r == Step(db, elem, Ok(Unsaved(sub)))
    ensures user.Some? && elem.key.None? ==> r == Step(db, elem, Err(BadRequestError))
    ensures r.result.Err? ==> r.db == db && r.elem.attribs == elem.attribs
    ensures r.result.Err? ==> r.result.error in {BadRequestError, AttributeError, UnboundLocalError}
    ensures user.Some? && elem.key.Some? && !HasContainer(elem, db) ==> r == Step(db, elem, Err(AttributeError))
    ensures user.Some? && HasContainer(elem, db) ==>
              var st := Store(db, elem.key.value, user.value, sub, sub.attrib);
              var cache := CacheInsertAsWritten(elem.attribs, st.1);
              && r.elem.container == (if st.2.Some? then Some(ContainerRec(st.2.value)) else elem.container)
              && (r.result.Ok? <==> cache.Ok?)
              && (cache.Err? ==> r.db == db && r.result == Err(cache.error))
              && (cache.Ok? ==> r.db == st.0 && r.result == Ok(Saved(st.1)) && r.elem.attribs == cache.value)
  {
    if user.None? then Step(db, elem, Ok(Unsaved(sub)))
    else if elem.key.None? then Step(db, elem, Err(BadRequestError))
    else
      var a := elem.key.value;
      if a !in db.records || db.records[a].AttribRec? then Step(db, elem, Err(AttributeError))
      else
        var (db2, e, linked) := Store(db, a, user.value, sub, sub.attrib);
        var elem1 := if linked.Some? then elem.(container := Some(ContainerRec(linked.value))) else elem;
        match CacheInsertAsWritten(elem1.attribs, e)
        case Err(err) => Step(db, elem1, Err(err))
        case Ok(c) => Step(db2, elem1.(attribs := c), Ok(Saved(e)))
  }

  /** `addAttrib` as evidently intended: an update keeps the existing
      author, and the cache update is the corrected one, which cannot
      raise. Everything else is as written. */
  function AddAttrib(elem: Element, db: Db, user: Option<User>, sub: Submitted): (r: Step<Returned>)
    requires Valid(db)
    ensures Valid(r.db)
    ensures r.elem.key == elem.key && r.elem.keys == elem.keys && r.elem.containers == elem.containers
    ensures user.None? ==> r == Step(db, elem, Ok(Unsaved(sub)))
    ensures r.result.Err? <==> user.Some? && (elem.key.None? || elem.key.value !in db.records || db.records[elem.key.value].AttribRec?)
    ensures r.result.Err? ==> r.db == db && r.elem == elem
    ensures r.result.Err? ==> r.result.error == (if elem.key.None? then BadRequestError else AttributeError)
    ensures r.result.Ok? && user.Some? ==>
              && r.result.value.Saved?
              && var e := r.result.value.e;
              && var a := elem.key.value;
              && e.key in r.db.records && r.db.records[e.key] == e.rec
              && e.rec == AttribRec(sub.attrib.(author := user))
              && KindOf(e.key) == sub.kind && Descends(e.key, a)
              && a in r.db.records && r.db.records[a].ContainerRec? && e.key in r.db.records[a].c.attributes
              && r.elem.key == elem.key
              && r.elem.attribs == CacheInsert(elem.attribs, e)
  {
    if user.None? then Step(db, elem, Ok(Unsaved(sub)))
    else if elem.key.None? then Step(db, elem, Err(BadRequestError))
    else
      var a := elem.key.value;
      if a !in db.records || db.records[a].AttribRec? then Step(db, elem, Err(AttributeError))
      else
        var (db2, e, linked) := Store(db, a, user.value, sub, sub.attrib.(author := user));
        var elem1 := if linked.Some? then elem.(container := Some(ContainerRec(linked.value))) else elem;
        Step(db2, elem1.(attribs := CacheInsert(elem1.attribs, e)), Ok(Saved(e)))
  }

  /** The container an upsert goes to: the element's key names a stored
      container. */
  predicate HasContainer(elem: Element, db: Db) {
    elem.key.Some? && elem.key.value in db.records && db.records[elem.key.value].ContainerRec?
  }

  /** Updating the user's existing attribute writes no new key: the query
      for the kind returns the same keys. */
  lemma StoreExisting(db: Db, a: Key, user: User, sub: Submitted, overwrite: Attrib)
    requires Valid(db) && a in db.records && db.records[a].ContainerRec?
    requires FindOwn(db, sub.kind, a, user).Some?
    ensures var (db', e, _) := Store(db, a, user, sub, overwrite);
            && e == Entity(FindOwn(db, sub.kind, a, user).value, AttribRec(overwrite))
            && Query(db', sub.kind, a) == Query(db, sub.kind, a)
            && db'.records == db.records[e.key := e.rec][a := db'.records[a]]
  {
  }

  /** A user without an attribute of the kind gets a fresh one: the query
      for the kind gains exactly its key, and so does the container's
      `attributes`, without a duplicate. */
  lemma StoreNew(db: Db, a: Key, user: User, sub: Submitted, overwrite: Attrib)
    requires Valid(db) && a in db.records && db.records[a].ContainerRec?
    requires FindOwn(db, sub.kind, a, user).None?
    ensures var (db', e, _) := Store(db, a, user, sub, overwrite);
            && e.key !in db.records
            && e.rec == AttribRec(sub.attrib.(author := Some(user)))
            && Query(db', sub.kind, a) == Query(db, sub.kind, a) + [e.key]
            && db'.records[a].c.attributes == db.records[a].c.attributes + [e.key]
            && NoDup(db'.records[a].c.attributes)
            && db'.records == db.records[e.key := e.rec][a := db'.records[a]]
  {
    var (db1, e) := Save(db, a, user, sub, overwrite);
    FilterAppend(db.order, e.key, k => KindOf(k) == sub.kind && Descends(k, a));
    assert !Allocated(e.key, db.nextId);
    assert e.key !in db.records[a].c.attributes;
  }

  /** Writing under keys outside the query leaves the user's attributes in
      it as they were. */
  lemma OwnedUnchanged(db: Db, db': Db, kind: Kind, a: Key, user: User)
    requires Query(db', kind, a) == Query(db, kind, a)
    requires forall k | k in Query(db, kind, a) :: OwnedBy(db', user, k) == OwnedBy(db, user, k)
    ensures Owned(db', kind, a, user) == Owned(db, kind, a, user)
  {
    FilterAgree(Query(db, kind, a), k => OwnedBy(db', user, k), k => OwnedBy(db, user, k));
  }

  /** The upsert as intended: after a successful call the user's attribute
      of the kind is the one just saved, so the next call by the same user
      updates it again. */
  lemma AddAttribFindsOwn(elem: Element, db: Db, user: User, sub: Submitted)
    requires Valid(db) && HasContainer(elem, db)
    ensures var r := AddAttrib(elem, db, Some(user), sub);
            r.result.Ok? && FindOwn(r.db, sub.kind, elem.key.value, Some(user).value) == Some(r.result.value.e.key)
  {
    var a := elem.key.value;
    var overwrite := sub.attrib.(author := Some(user));
    var (db', e, _) := Store(db, a, user, sub, overwrite);
    var r := AddAttrib(elem, db, Some(user), sub);
    assert r.db == db' && r.result == Ok(Saved(e));
    if FindOwn(db, sub.kind, a, user).Some? {
      OwnedHeadAfterUpdate(db, a, user, sub, overwrite);
    } else {
      OwnedHeadAfterAdd(db, a, user, sub, overwrite);
    }
  }

  /** Overwriting the user's attribute of the kind with one still authored
      by the user keeps it the first of theirs. */
  lemma OwnedHeadAfterUpdate(db: Db, a: Key, user: User, sub: Submitted, overwrite: Attrib)
    requires Valid(db) && a in db.records && db.records[a].ContainerRec?
    requires overwrite.author == Some(user) && FindOwn(db, sub.kind, a, user).Some?
    ensures var (db', e, _) := Store(db, a, user, sub, overwrite);
            |Owned(db', sub.kind, a, user)| > 0 && Owned(db', sub.kind, a, user)[0] == e.key
  {
    var db' := Store(db, a, user, sub, overwrite).0;
    assert a.ContainerKey?;
    StoreExisting(db, a, user, sub, overwrite);
    OwnedUnchanged(db, db', sub.kind, a, user);
  }

  /** A user without an attribute of the kind owns exactly the new one
      afterwards. */
  lemma OwnedHeadAfterAdd(db: Db, a: Key, user: User, sub: Submitted, overwrite: Attrib)
    requires Valid(db) && a in db.records && db.records[a].ContainerRec?
    requires FindOwn(db, sub.kind, a, user).None?
    ensures var (db', e, _) := Store(db, a, user, sub, overwrite);
            Owned(db', sub.kind, a, user) == [e.key]
  {
    var (db', e, _) := Store(db, a, user, sub, overwrite);
    assert a.ContainerKey?;
    StoreNew(db, a, user, sub, overwrite);
    var q := Query(db, sub.kind, a);
    FilterAgree(q, k => OwnedBy(db', user, k), k => OwnedBy(db, user, k));
    FilterAppend(q, e.key, k => OwnedBy(db', user, k));
    assert Owned(db', sub.kind, a, user) == Owned(db, sub.kind, a, user) + [e.key];
  }

  /** Same author: the attribute is updated in place. The kind's attribute
      count under the container stays, and the text is the latest call's. */
  lemma AddAttribSameAuthorUpdates(elem: Element, db: Db, user: User, sub: Submitted)
    requires Valid(db) && HasContainer(elem, db)
    requires FindOwn(db, sub.kind, elem.key.value, user).Some?
    ensures var r := AddAttrib(elem, db, Some(user), sub);
            var a := elem.key.value;
            var k := FindOwn(db, sub.kind, a, user).value;
            && r.result == Ok(Saved(Entity(k, AttribRec(sub.attrib.(author := Some(user))))))
            && Query(r.db, sub.kind, a) == Query(db, sub.kind, a)
            && r.db.records[k].a.text == sub.attrib.text
            && r.db.records[k].a.author == Some(user)
  {
    StoreExisting(db, elem.key.value, user, sub, sub.attrib.(author := Some(user)));
  }

  /** New author: a fresh attribute owned by the container, and the
      container's `attributes` grows by that one key with no duplicate. */
  lemma AddAttribNewAuthorAdds(elem: Element, db: Db, user: User, sub: Submitted)
    requires Valid(db) && HasContainer(elem, db)
    requires FindOwn(db, sub.kind, elem.key.value, user).None?
    ensures var r := AddAttrib(elem, db, Some(user), sub);
            var a := elem.key.value;
            && r.result.Ok?
            && var k := r.result.value.e.key;
            && k !in db.records && k.AttribKey? && k.parent == a
            && Query(r.db, sub.kind, a) == Query(db, sub.kind, a) + [k]
            && r.db.records[a].c.attributes == db.records[a].c.attributes + [k]
            && NoDup(r.db.records[a].c.attributes)
  {
    StoreNew(db, elem.key.value, user, sub, sub.attrib.(author := Some(user)));
  }

  /** Two calls by the same user keep one attribute of the kind: the
      second call adds no key to the query. */
  lemma AddAttribTwiceKeepsCount(elem: Element, db: Db, user: User, sub: Submitted, sub2: Submitted)
    requires Valid(db) && HasContainer(elem, db) && sub2.kind == sub.kind
    ensures var r1 := AddAttrib(elem, db, Some(user), sub);
            var r2 := AddAttrib(r1.elem, r1.db, Some(user), sub2);
            r2.result.Ok? && Query(r2.db, sub.kind, elem.key.value) == Query(r1.db, sub.kind, elem.key.value)
  {
    AddAttribFindsOwn(elem, db, user, sub);
    var r1 := AddAttrib(elem, db, Some(user), sub);
    assert HasContainer(r1.elem, r1.db);
    AddAttribSameAuthorUpdates(r1.elem, r1.db, user, sub2);
  }

  /** Without a cache, the as-written call succeeds with the store's
      writes. */
  lemma AddAttribAsWrittenNoCache(elem: Element, db: Db, user: User, sub: Submitted)
    requires Valid(db) && HasContainer(elem, db) && elem.attribs.None?
    ensures var r := AddAttribAsWritten(elem, db, Some(user), sub);
            var st := Store(db, elem.key.value, user, sub, sub.attrib);
            && r.result == Ok(Saved(st.1)) && r.db == st.0
            && r.elem.attribs.None? && HasContainer(r.elem, r.db)
  {
    var a := elem.key.value;
    assert a.ContainerKey?;
    var st := Store(db, a, user, sub, sub.attrib);
    var r := AddAttribAsWritten(elem, db, Some(user), sub);
    assert r.db == st.0 && r.result == Ok(Saved(st.1)) && r.elem.attribs.None?;
  }

  /** Overwriting the user's only attribute of the kind with a record by
      someone else leaves the user without one. */
  lemma StoreDisowns(db: Db, a: Key, user: User, sub: Submitted, overwrite: Attrib)
    requires Valid(db) && a in db.records && db.records[a].ContainerRec?
    requires |Owned(db, sub.kind, a, user)| == 1 && overwrite.author != Some(user)
    ensures FindOwn(Store(db, a, user, sub, overwrite).0, sub.kind, a, user).None?
  {
    var owned := Owned(db, sub.kind, a, user);
    assert owned[0] in owned;
    var k := FindOwn(db, sub.kind, a, user).value;
    assert a.ContainerKey?;
    StoreExisting(db, a, user, sub, overwrite);
    var db' := Store(db, a, user, sub, overwrite).0;
    assert owned == [k];
    forall j | j in Query(db, sub.kind, a) ensures !OwnedBy(db', user, j) {
      if j != k {
        assert j != a && db'.records[j] == db.records[j];
        assert !OwnedBy(db, user, j);
      }
    }
  }

  /** As written, updating the user's only attribute of the kind with an
      argument whose author is unset stores it without an author: the
      user no longer owns an attribute of the kind. */
  lemma AddAttribAsWrittenDisowns(elem: Element, db: Db, user: User, sub: Submitted)
    requires Valid(db) && HasContainer(elem, db) && elem.attribs.None?
    requires sub.attrib.author.None?
    requires |Owned(db, sub.kind, elem.key.value, user)| == 1
    ensures var r := AddAttribAsWritten(elem, db, Some(user), sub);
            && r.result.Ok? && r.elem.attribs.None? && HasContainer(r.elem, r.db)
            && Query(r.db, sub.kind, elem.key.value) == Query(db, sub.kind, elem.key.value)
            && FindOwn(r.db, sub.kind, elem.key.value, user).None?
  {
    var owned := Owned(db, sub.kind, elem.key.value, user);
    assert owned[0] in owned;
    StoreExisting(db, elem.key.value, user, sub, sub.attrib);
    StoreDisowns(db, elem.key.value, user, sub, sub.attrib);
    AddAttribAsWrittenNoCache(elem, db, user, sub);
  }

  /** A cache whose first entry is an empty fetched list makes the cache
      update raise UnboundLocalError after the writes: the transaction
      rolls them back, yet the element's container was already replaced. */
  lemma AddAttribAsWrittenUnboundRollsBack(elem: Element, db: Db, user: User, sub: Submitted)
    requires Valid(db) && HasContainer(elem, db) && elem.attribs == Some([Populated([])])
    ensures var r := AddAttribAsWritten(elem, db, Some(user), sub);
            var linked := Store(db, elem.key.value, user, sub, sub.attrib).2;
            && r.result == Err(UnboundLocalError) && r.db == db
            && r.elem.attribs == elem.attribs
            && r.elem.container == (if linked.Some? then Some(ContainerRec(linked.value)) else elem.container)
  {
    var st := Store(db, elem.key.value, user, sub, sub.attrib);
    CacheInsertAsWrittenUnbound(st.1);
    var r := AddAttribAsWritten(elem, db, Some(user), sub);
    assert r.result == Err(UnboundLocalError);
  }

  /** As written, the next call by that user therefore adds a second
      attribute of the kind instead of updating the first. */
  lemma AddAttribAsWrittenDuplicates(elem: Element, db: Db, user: User, sub: Submitted, sub2: Submitted)
    requires Valid(db) && HasContainer(elem, db) && elem.attribs.None?
    requires sub.attrib.author.None? && sub2.kind == sub.kind
    requires |Owned(db, sub.kind, elem.key.value, user)| == 1
    ensures var r1 := AddAttribAsWritten(elem, db, Some(user), sub);
            var r2 := AddAttribAsWritten(r1.elem, r1.db, Some(user), sub2);
            && r1.result.Ok? && r2.result.Ok?
            && |Query(r2.db, sub.kind, elem.key.value)| == |Query(db, sub.kind, elem.key.value)| + 1
  {
    AddAttribAsWrittenDisowns(elem, db, user, sub);
    var r1 := AddAttribAsWritten(elem, db, Some(user), sub);
    StoreNew(r1.db, elem.key.value, user, sub2, sub2.attrib);
    AddAttribAsWrittenNoCache(r1.elem, r1.db, user, sub2);
  }

  // ---------------------------------------------------------------------
  // setAttribActive

  /** The record with its `active` property set to b. */
  function WithActive(r: Record, b: bool): (r': Record)
    ensures RecordActive(r') == b && r'.ContainerRec? == r.ContainerRec?
    ensures r'.ContainerRec? ==> r'.c == r.c.(active := b)
    ensures r'.AttribRec? ==> r'.a == r.a.(active := b)
  {
    match r
    case ContainerRec(c) => ContainerRec(c.(active := b))
    case AttribRec(a) => AttribRec(a.(active := b))
  }

  /** `ndb.put_multi` of the fetched siblings after the loop has set each
      one active exactly when its key is k. */
  function PutActive(db: Db, ks: seq<Key>, k: Key): (db': Db)
    requires forall q | q in ks :: q in db.records && q in db.order
    ensures db'.order == db.order && db'.nextId == db.nextId
    ensures db'.records.Keys == db.records.Keys
    ensures Valid(db) ==> Valid(db')
    decreases |ks|
  {
    if |ks| == 0 then db
    else
      var q := ks[0];
      var db1 := Put(db, q, WithActive(db.records[q], q == k));
      assert Valid(db) ==> Valid(db1) by {
        if Valid(db) {
          PutWithActiveValid(db, q, q == k);
        }
      }
      assert forall p | p in ks[1..] :: p in ks;
      PutActive(db1, ks[1..], k)
  }

  /** Each fetched sibling ends up with `active` set exactly when its key
      is k; every other record is as it was. */
  lemma {:induction false} PutActiveRecords(db: Db, ks: seq<Key>, k: Key)
    requires forall q | q in ks :: q in db.records && q in db.order
    ensures forall q | q in db.records ::
              PutActive(db, ks, k).records[q] == if q in ks then WithActive(db.records[q], q == k) else db.records[q]
    decreases |ks|
  {
    if |ks| > 0 {
      var q := ks[0];
      var db1 := Put(db, q, WithActive(db.records[q], q == k));
      assert forall p | p in ks[1..] :: p in ks;
      PutActiveRecords(db1, ks[1..], k);
      forall x | x in db.records
        ensures PutActive(db, ks, k).records[x] == if x in ks then WithActive(db.records[x], x == k) else db.records[x]
      {
        if x != q && x in ks {
          assert x in ks[1..];
        }
      }
    }
  }

  /** Rewriting one stored record's `active` flag keeps the datastore valid. */
  lemma PutWithActiveValid(db: Db, q: Key, b: bool)
    requires Valid(db) && q in db.records
    ensures Valid(Put(db, q, WithActive(db.records[q], b)))
  {
    var r := db.records[q];
    assert Allocated(q, db.nextId);
    if r.ContainerRec? {
      assert LinksAllocated(r.c, db.nextId);
      assert WithActive(r, b).c == r.c.(active := b);
    }
  }

  /** `setAttribActive(k)`: every instance of k's kind owned by the
      element's key becomes inactive except k itself. A key with no stored
      record gives `NoneType.query`, an AttributeError; without a key the
      query is refused. The element is not changed. */
  function SetAttribActive(elem: Element, db: Db, k: Key): (r: Step<()>)
    requires Valid(db)
    ensures r.elem == elem
    ensures Valid(r.db)
    ensures r.result.Err? <==> k !in db.records || elem.key.None?
    ensures r.result.Err? ==> r.db == db && r.result.error == (if k !in db.records then AttributeError else BadRequestError)
    ensures r.result.Ok? ==>
              && r.db.order == db.order && r.db.nextId == db.nextId && r.db.records.Keys == db.records.Keys
              && var sibs := Query(db, KindOf(k), elem.key.value);
              && (forall q | q in sibs :: RecordActive(r.db.records[q]) <==> q == k)
              && (forall q | q in sibs :: r.db.records[q] == WithActive(db.records[q], q == k))
              && (forall q | q in db.records && q !in sibs :: r.db.records[q] == db.records[q])
  {
    if k !in db.records then Step(db, elem, Err(AttributeError))
    else if elem.key.None? then Step(db, elem, Err(BadRequestError))
    else
      var sibs := Query(db, KindOf(k), elem.key.value);
      PutActiveRecords(db, sibs, k);
      Step(PutActive(db, sibs, k), elem, Ok(()))
  }

  /** After `setAttribActive(k)` the shallow entry of k's kind is k
      followed by None for every other instance. */
  lemma SetActiveThenShallow(elem: Element, db: Db, k: Key)
    requires Valid(db) && elem.key.Some?
    requires k in Query(db, KindOf(k), elem.key.value)
    ensures var db' := SetAttribActive(elem, db, k).db;
            && Query(db', KindOf(k), elem.key.value) == Query(db, KindOf(k), elem.key.value)
            && ShallowEntry(db', KindOf(k), elem.key.value) ==
                 Populated([Some(Entity(k, db'.records[k]))] + Nones(|Query(db', KindOf(k), elem.key.value)| - 1))
  {
    var a := elem.key.value;
    var kind := KindOf(k);
    var db' := SetAttribActive(elem, db, k).db;
    var sibs := Query(db, kind, a);
    assert Query(db', kind, a) == sibs;
    assert RecordActive(db'.records[k]);
    assert forall q | q in sibs && q != k :: !RecordActive(db'.records[q]);
    ShallowEntryExactlyOne(db', kind, a, k);
  }
}
