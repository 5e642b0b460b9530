/** `Element.create` on the datastore: the root bootstrap, gated on an
    administrator, and child creation, which links the new container into
    its parent's `menuChildren`. */
module NdbCreate {
  import opened Wrappers
  import opened PyValue
  import opened NdbModel

  /** What a constructor call leaves behind: the datastore and the new
      element. */
  datatype Created = Created(db: Db, elem: Element)

  /** The root container as the bootstrap first stores it. */
  const NewRoot: Container := Container(true, ROOT, None, [], [])

  /** The root branch of `create`. An administrator on a datastore without a
      root stores it with a Name attribute "root"; every other caller writes
      nothing. Either way the element ends on the root key. */
  function CreateRoot(db: Db, user: User, isAdmin: bool): (r: Created)
    requires Valid(db)
    ensures Valid(r.db)
    ensures r.elem.key == Some(RootKey) && r.elem.attribs.None? && r.elem.keys == [] && r.elem.containers == []
    ensures !isAdmin || RootKey in db.records ==>
              r.db == db && r.elem.container == (if RootKey in db.records then Some(db.records[RootKey]) else None)
  {
    if isAdmin && RootKey !in db.records then
      var db1 := Put(db, RootKey, ContainerRec(NewRoot));
      assert Valid(db1);
      var (db2, id) := Allocate(db1);
      var ak := AttribKey(RootKey, NameKind, id);
      var db3 := Put(db2, ak, AttribRec(Attrib(Some(user), false, Some("root"))));
      assert Valid(db3) by {
        assert Allocated(ak, db2.nextId);
      }
      var root := NewRoot.(attributes := [ak]);
      var db4 := Put(db3, RootKey, ContainerRec(root));
      assert Valid(db4) by {
        assert LinksAllocated(root, db3.nextId);
      }
      Created(db4, Blank.(key := Some(RootKey), container := Some(ContainerRec(root))))
    else
      Created(db, Blank.(key := Some(RootKey), container := if RootKey in db.records then Some(db.records[RootKey]) else None))
  }

  /** An administrator's bootstrap stores an active, parentless, childless
      root whose one attribute is a fresh Name attribute with text "root"
      by that administrator, and nothing else. */
  lemma BootstrapStoresRoot(db: Db, user: User)
    requires Valid(db)
    requires RootKey !in db.records
    ensures var r := CreateRoot(db, user, true);
            var ak := AttribKey(RootKey, NameKind, db.nextId);
            && r.db.records == db.records[RootKey := ContainerRec(NewRoot.(attributes := [ak]))]
                                         [ak := AttribRec(Attrib(Some(user), false, Some("root")))]
            && ak !in db.records
            && r.elem.container == Some(r.db.records[RootKey])
            && r.db.nextId == db.nextId + 1
  {
    FreshKeyUnallocated(db, AttribKey(RootKey, NameKind, db.nextId));
  }

  /** Bootstrapping happens once: a second root create, by anyone, writes
      nothing and returns the same key and root. */
  lemma BootstrapOnce(db: Db, admin: User, user: User, isAdmin: bool)
    requires Valid(db)
    requires RootKey !in db.records
    ensures var first := CreateRoot(db, admin, true);
            var again := CreateRoot(first.db, user, isAdmin);
            again.db == first.db && again.elem == first.elem
  {
  }

  /** The `menuParent` argument: a key, an `Element` (with or without a
      key), or anything else. */
  datatype ParentArg = ParentKey(k: Key) | ParentElement(key: Option<Key>) | NotAParent

  /** The `active` argument as a `BooleanProperty` takes it: None becomes
      False, a bool is kept, anything else fails validation. */
  function ActiveFlag(v: Value): (r: Result<bool>)
    ensures r.Ok? <==> v == NoneVal || v.BoolVal?
    ensures r.Err? ==> r.error == BadValueError
    ensures v.BoolVal? ==> r == Ok(v.b)
    ensures v == NoneVal ==> r == Ok(false)
  {
    if v == NoneVal then Ok(false) else if v.BoolVal? then Ok(v.b) else Err(BadValueError)
  }

  /** The stored record the parent argument names, fetched again. */
  function ParentKeyOf(p: ParentArg): (r: Result<Key>)
    ensures r.Ok? <==> p.ParentKey? || (p.ParentElement? && p.key.Some?)
    ensures r.Err? ==> r.error == TypeError
  {
    match p
    case ParentKey(k) => Ok(k)
    case ParentElement(k) => if k.Some? then Ok(k.value) else Err(TypeError)
    case NotAParent => Err(TypeError)
  }

  /** The key a successful child create stores the new container under. */
  function ChildKey(db: Db): Key {
    ContainerKey(AutoId(db.nextId))
  }

  /** The child branch of `create`. The checks fire in the order the code
      reaches them: a parent argument that is neither a key nor a keyed
      element (TypeError), a parent that is not stored (AttributeError on
      `None.key`), an `active` that is not a bool (BadValueError at
      construction), a missing content type (BadValueError at put), a parent
      that is an attribute (AttributeError on `menuChildren`). Any failure
      rolls the transaction back. */
  function CreateChild(db: Db, active: Value, contType: Option<ContentType>, parent: ParentArg): (r: Result<Created>)
    requires Valid(db)
    ensures ParentKeyOf(parent).Err? ==> r == Err(TypeError)
    ensures ParentKeyOf(parent).Ok? && ParentKeyOf(parent).value !in db.records ==> r == Err(AttributeError)
    ensures ParentKeyOf(parent).Ok? && ParentKeyOf(parent).value in db.records ==>
              && (ActiveFlag(active).Err? ==> r == Err(BadValueError))
              && (ActiveFlag(active).Ok? && contType.None? ==> r == Err(BadValueError))
              && (ActiveFlag(active).Ok? && contType.Some? && db.records[ParentKeyOf(parent).value].AttribRec? ==>
                    r == Err(AttributeError))
    ensures r.Ok? <==>
              && ParentKeyOf(parent).Ok?
              && ParentKeyOf(parent).value in db.records
              && db.records[ParentKeyOf(parent).value].ContainerRec?
              && ActiveFlag(active).Ok? && contType.Some?
    ensures r.Ok? ==> Valid(r.value.db)
    ensures r.Ok? ==>
              && ChildKey(db) in r.value.db.records
              && r.value.elem.key == Some(ChildKey(db))
              && r.value.elem.container == Some(r.value.db.records[ChildKey(db)])
  {
    var pk :- ParentKeyOf(parent);
    if pk !in db.records then Err(AttributeError)
    else
      var prec := db.records[pk];
      var act :- ActiveFlag(active);
      if contType.None? then Err(BadValueError)
      else
        var (db1, id) := Allocate(db);
        var ck := ContainerKey(AutoId(id));
        var child := Container(act, contType.value, Some(pk), [], []);
        AllocatedMonotone(pk, db.nextId, db1.nextId);
        var db2 := Put(db1, ck, ContainerRec(child));
        assert Valid(db2) by {
          assert Allocated(ck, db1.nextId) && LinksAllocated(child, db1.nextId);
        }
        if prec.AttribRec? then Err(AttributeError)
        else
          var p := prec.c;
          assert LinksAllocated(p, db.nextId);
          FreshKeyUnallocated(db, ck);
          if ck in p.menuChildren then Ok(Created(db2, Blank.(key := Some(ck), container := Some(ContainerRec(child)))))
          else
            var p' := p.(menuChildren := p.menuChildren + [ck]);
            assert LinksAllocated(p', db2.nextId) by {
              forall q | q in p.menuChildren ensures Allocated(q, db2.nextId) {
                AllocatedMonotone(q, db.nextId, db2.nextId);
              }
              forall q | q in p.attributes ensures Allocated(q, db2.nextId) {
                AllocatedMonotone(q, db.nextId, db2.nextId);
              }
              if p.menuParent.Some? {
                AllocatedMonotone(p.menuParent.value, db.nextId, db2.nextId);
              }
            }
            var db3 := Put(db2, pk, ContainerRec(p'));
            assert Valid(db3) by {
              AllocatedMonotone(pk, db.nextId, db2.nextId);
            }
            Ok(Created(db3, Blank.(key := Some(ck), container := Some(ContainerRec(child)))))
  }

  /** A child create stores one new container, under a fresh key, pointing
      back at its parent, with no children and `active` defaulting to False;
      the parent gains the key exactly once at the end of its children and
      is otherwise unchanged, in particular not activated. Nothing else
      changes. */
  lemma ChildCreateLinks(db: Db, active: Value, contType: Option<ContentType>, parent: ParentArg)
    requires Valid(db)
    requires CreateChild(db, active, contType, parent).Ok?
    ensures var out := CreateChild(db, active, contType, parent).value.db;
            var pk := ParentKeyOf(parent).value;
            var ck := ChildKey(db);
            var p := db.records[pk].c;
            && ck !in db.records
            && out.records == db.records[ck := ContainerRec(Container(ActiveFlag(active).value, contType.value, Some(pk), [], []))]
                                        [pk := ContainerRec(p.(menuChildren := p.menuChildren + [ck]))]
            && ck !in p.menuChildren
            && out.nextId == db.nextId + 1
  {
    var ck := ChildKey(db);
    FreshKeyUnallocated(db, ck);
    var pk := ParentKeyOf(parent).value;
    assert LinksAllocated(db.records[pk].c, db.nextId);
  }

  /** The parent's side of a child create, on its own. */
  lemma ChildCreateAppends(db: Db, active: Value, contType: Option<ContentType>, parent: ParentArg)
    requires Valid(db)
    requires CreateChild(db, active, contType, parent).Ok?
    ensures var out := CreateChild(db, active, contType, parent).value.db;
            var pk := ParentKeyOf(parent).value;
            && pk in out.records && out.records[pk].ContainerRec?
            && out.records[pk].c.menuChildren == db.records[pk].c.menuChildren + [ChildKey(db)]
            && out.nextId == db.nextId + 1
  {
    ChildCreateLinks(db, active, contType, parent);
  }

  /** `Element(active=..., contType=..., menuParent=...)`: without a
      signed-in user nothing is written and the element stays blank;
      `Type.ROOT` goes to the root branch, any other type to the child
      branch. */
  function Create(db: Db, user: Option<User>, isAdmin: bool, active: Value, contType: Option<ContentType>, parent: ParentArg): (r: Result<Created>)
    requires Valid(db)
    ensures user.None? ==> r == Ok(Created(db, Blank))
    ensures r.Ok? ==> Valid(r.value.db)
    ensures user.Some? && contType == Some(ROOT) ==> r == Ok(CreateRoot(db, user.value, isAdmin))
    ensures user.Some? && contType != Some(ROOT) ==> r == CreateChild(db, active, contType, parent)
  {
    if user.None? then Ok(Created(db, Blank))
    else if contType == Some(ROOT) then Ok(CreateRoot(db, user.value, isAdmin))
    else CreateChild(db, active, contType, parent)
  }

  /** After i child creates under pk, starting from a parent with children
      `before` and allocator at `first`: the parent's children are `before`
      followed by the i keys allocated from `first` on. */
  ghost predicate ChildrenSoFar(r: Db, pk: Key, before: seq<Key>, first: nat, i: nat) {
    && pk in r.records && r.records[pk].ContainerRec?
    && r.nextId == first + i
    && var kids := r.records[pk].c.menuChildren;
    && |kids| == |before| + i
    && kids[..|before|] == before
    && forall j | |before| <= j < |kids| :: kids[j] == ContainerKey(AutoId(first + j - |before|))
  }

  lemma OneMoreChild(r: Db, pk: Key, contType: ContentType, before: seq<Key>, first: nat, i: nat)
    requires Valid(r) && ChildrenSoFar(r, pk, before, first, i)
    ensures CreateChild(r, NoneVal, Some(contType), ParentKey(pk)).Ok?
    ensures var r' := CreateChild(r, NoneVal, Some(contType), ParentKey(pk)).value.db;
            Valid(r') && ChildrenSoFar(r', pk, before, first, i + 1)
  {
    ChildCreateAppends(r, NoneVal, Some(contType), ParentKey(pk));
    ExtendSoFar(r, CreateChild(r, NoneVal, Some(contType), ParentKey(pk)).value.db, pk, before, first, i);
  }

  lemma ExtendSoFar(r: Db, r': Db, pk: Key, before: seq<Key>, first: nat, i: nat)
    requires ChildrenSoFar(r, pk, before, first, i)
    requires pk in r'.records && r'.records[pk].ContainerRec? && r'.nextId == r.nextId + 1
    requires r'.records[pk].c.menuChildren == r.records[pk].c.menuChildren + [ContainerKey(AutoId(r.nextId))]
    ensures ChildrenSoFar(r', pk, before, first, i + 1)
  {
    var kids := r.records[pk].c.menuChildren;
    var kids' := r'.records[pk].c.menuChildren;
    assert kids'[..|before|] == kids[..|before|];
  }

  /** Creating n children under one parent, one create after another,
      gives it exactly n more, distinct, children, appended in creation
      order under consecutive ids. */
  method CreateChildren(db: Db, pk: Key, contType: ContentType, n: nat) returns (r: Db)
    requires Valid(db)
    requires pk in db.records && db.records[pk].ContainerRec?
    ensures Valid(r) && pk in r.records && r.records[pk].ContainerRec?
    ensures r.nextId == db.nextId + n
    ensures var before := db.records[pk].c.menuChildren;
            var kids := r.records[pk].c.menuChildren;
            && |kids| == |before| + n
            && kids[..|before|] == before
            && NoDup(kids)
            && forall j | |before| <= j < |kids| :: kids[j] == ContainerKey(AutoId(db.nextId + j - |before|))
  {
    var before := db.records[pk].c.menuChildren;
    r := db;
    var i := 0;
    while i < n
      invariant 0 <= i <= n
      invariant Valid(r) && ChildrenSoFar(r, pk, before, db.nextId, i)
    {
      OneMoreChild(r, pk, contType, before, db.nextId, i);
      r := CreateChild(r, NoneVal, Some(contType), ParentKey(pk)).value.db;
      i := i + 1;
    }
    assert LinksAllocated(r.records[pk].c, r.nextId);
  }
}
