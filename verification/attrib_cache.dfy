/** The `attribs` cache of an `Element`: a list holding, per attribute
    class, either the class name (a placeholder for instances not fetched
    yet) or a list of fetched instances. Covers `getAtribTypes`,
    `getAttribDeep`, `getAttribShallow`, `getAttribShallowAll` and the
    cache update at the end of `addAttrib`. */
module AttribCache {
  import opened Wrappers
  import opened NdbModel

  /** The class of a fetched entity. */
  function EntityKind(e: Entity): Kind {
    KindOf(e.key)
  }

  /** A slot holds an instance of the kind. */
  predicate SlotOfKind(slot: Option<Entity>, kind: Kind) {
    slot.Some? && EntityKind(slot.value) == kind
  }

  /** Some slot of a populated list holds an instance of the kind. */
  predicate HoldsKind(items: seq<Option<Entity>>, kind: Kind) {
    exists i | 0 <= i < |items| :: SlotOfKind(items[i], kind)
  }

  /** A cache entry stands for the kind: its placeholder, or a populated
      list with an instance of it. */
  predicate About(entry: CacheEntry, kind: Kind) {
    entry == Placeholder(kind) || (entry.Populated? && HoldsKind(entry.items, kind))
  }

  /** The cache records the entity: a populated list of its kind ends with
      it, or the kind's placeholder is there to fetch it later. */
  predicate Records(entries: seq<CacheEntry>, e: Entity) {
    exists i | 0 <= i < |entries| ::
      entries[i] == Placeholder(EntityKind(e)) ||
      (entries[i].Populated? && |entries[i].items| > 0 && entries[i].items[|entries[i].items| - 1] == Some(e))
  }

  /** `[None] * n`, empty for n <= 0. */
  function Nones(n: int): (r: seq<Option<Entity>>)
    ensures |r| == if n <= 0 then 0 else n
    ensures forall i | 0 <= i < |r| :: r[i].None?
    decreases n
  {
    if n <= 0 then [] else [None] + Nones(n - 1)
  }

  function Wrap(es: seq<Entity>): (r: seq<Option<Entity>>)
    ensures |r| == |es| && forall i | 0 <= i < |es| :: r[i] == Some(es[i])
  {
    if |es| == 0 then [] else [Some(es[0])] + Wrap(es[1..])
  }

  // ---------------------------------------------------------------------
  // The cache update at the end of addAttrib, as the code is written.

  /** The loop variables of the update: the list built so far,
      `attribFound`, and `match` (here `matched`), which is None while no assignment has
      bound it. `match` is not reset between populated lists. */
  datatype InsertState = InsertState(out: seq<CacheEntry>, found: bool, matched: Option<bool>)

  /** An entry either stays as it was or is a populated list that gained
      the entity at its end. */
  predicate Grown(before: CacheEntry, after: CacheEntry, e: Entity) {
    after == before || (before.Populated? && after == Populated(before.items + [Some(e)]))
  }

  /** For a non-empty populated list, only its last slot decides whether
      the entity is appended: the list gains it exactly when that slot
      holds an instance of the kind, whatever the earlier slots hold. */
  predicate LastSlotDecides(before: CacheEntry, after: CacheEntry, e: Entity) {
    before.Populated? && |before.items| > 0 ==>
      (after != before <==> SlotOfKind(before.items[|before.items| - 1], EntityKind(e)))
  }

  /** One pass of the outer loop. For a populated list, `match` ends as the
      verdict on its last slot (an empty list leaves it as it was); the new
      entity is appended only when that verdict is True. */
  function InsertStepAsWritten(st: InsertState, entry: CacheEntry, e: Entity): (r: Result<InsertState>)
    ensures r.Err? <==> entry.Populated? && |entry.items| == 0 && st.matched.None?
    ensures r.Err? ==> r.error == UnboundLocalError
    ensures r.Ok? ==> r.value.found == (st.found || About(entry, EntityKind(e)))
    ensures r.Ok? ==> |r.value.out| == |st.out| + 1 && r.value.out[..|st.out|] == st.out
    ensures r.Ok? ==> Grown(entry, r.value.out[|st.out|], e)
    ensures r.Ok? ==> LastSlotDecides(entry, r.value.out[|st.out|], e)
    ensures r.Ok? && entry.Populated? && |entry.items| == 0 ==>
              (r.value.out[|st.out|] != entry <==> st.matched == Some(true))
    ensures r.Ok? ==> r.value.matched.Some? || r.value.matched == st.matched
  {
    match entry
    case Populated(items) =>
      var m := if |items| == 0 then st.matched else Some(SlotOfKind(items[|items| - 1], EntityKind(e)));
      if m.None? then Err(UnboundLocalError)
      else
        var kept := if m.value then items + [Some(e)] else items;
        Ok(InsertState(st.out + [Populated(kept)], st.found || HoldsKind(items, EntityKind(e)), m))
    case Placeholder(k) => Ok(InsertState(st.out + [entry], st.found || k == EntityKind(e), st.matched))
    case ClassEntry(_) => Ok(InsertState(st.out + [entry], st.found, st.matched))
  }

  function InsertLoopAsWritten(entries: seq<CacheEntry>, e: Entity): (r: Result<InsertState>)
    ensures r.Err? ==> r.error == UnboundLocalError
  {
    if |entries| == 0 then Ok(InsertState([], false, None))
    else
      var st :- InsertLoopAsWritten(entries[..|entries| - 1], e);
      InsertStepAsWritten(st, entries[|entries| - 1], e)
  }

  /** What the as-written loop keeps: every entry in its position, each
      either unchanged or grown by the entity. */
  lemma {:induction false} InsertLoopAsWrittenShape(entries: seq<CacheEntry>, e: Entity)
    requires InsertLoopAsWritten(entries, e).Ok?
    ensures var st := InsertLoopAsWritten(entries, e).value;
            && |st.out| == |entries|
            && (forall i | 0 <= i < |entries| :: Grown(entries[i], st.out[i], e))
  {
    if |entries| > 0 {
      var init := entries[..|entries| - 1];
      InsertLoopAsWrittenShape(init, e);
      var st0 := InsertLoopAsWritten(init, e).value;
      var st := InsertLoopAsWritten(entries, e).value;
      assert st == InsertStepAsWritten(st0, entries[|entries| - 1], e).value;
      forall i | 0 <= i < |entries| ensures Grown(entries[i], st.out[i], e) {
        if i < |init| {
          assert st.out[i] == st.out[..|init|][i] == st0.out[i];
          assert entries[i] == init[i];
        }
      }
    }
  }

  /** In the as-written loop, each non-empty populated list gains the
      entity exactly when its last slot is of the kind. */
  lemma {:induction false} InsertLoopAsWrittenLastSlot(entries: seq<CacheEntry>, e: Entity)
    requires InsertLoopAsWritten(entries, e).Ok?
    ensures var st := InsertLoopAsWritten(entries, e).value;
            && |st.out| == |entries|
            && (forall i | 0 <= i < |entries| :: LastSlotDecides(entries[i], st.out[i], e))
  {
    if |entries| > 0 {
      var init := entries[..|entries| - 1];
      InsertLoopAsWrittenLastSlot(init, e);
      var st0 := InsertLoopAsWritten(init, e).value;
      var st := InsertLoopAsWritten(entries, e).value;
      assert st == InsertStepAsWritten(st0, entries[|entries| - 1], e).value;
      forall i | 0 <= i < |entries| ensures LastSlotDecides(entries[i], st.out[i], e) {
        if i < |init| {
          assert st.out[i] == st.out[..|init|][i] == st0.out[i];
          assert entries[i] == init[i];
        }
      }
    }
  }

  /** `attribFound` ends True exactly when some entry stands for the
      entity's kind. */
  lemma {:induction false} InsertLoopAsWrittenFound(entries: seq<CacheEntry>, e: Entity)
    requires InsertLoopAsWritten(entries, e).Ok?
    ensures InsertLoopAsWritten(entries, e).value.found <==>
              exists i | 0 <= i < |entries| :: About(entries[i], EntityKind(e))
  {
    if |entries| > 0 {
      var init := entries[..|entries| - 1];
      InsertLoopAsWrittenFound(init, e);
      var st0 := InsertLoopAsWritten(init, e).value;
      var st := InsertLoopAsWritten(entries, e).value;
      assert st == InsertStepAsWritten(st0, entries[|entries| - 1], e).value;
      if st.found {
        if !About(entries[|entries| - 1], EntityKind(e)) {
          var i :| 0 <= i < |init| && About(init[i], EntityKind(e));
          assert entries[i] == init[i];
        }
      }
      if exists i | 0 <= i < |entries| :: About(entries[i], EntityKind(e)) {
        var i :| 0 <= i < |entries| && About(entries[i], EntityKind(e));
        if i < |init| {
          assert About(init[i], EntityKind(e));
        }
      }
    }
  }

  /** The update as written: None stays None; otherwise every entry keeps
      its position, a non-empty populated list gains the entity exactly
      when its last slot is of the kind, and the kind name is appended when
      no entry stands for the kind. An empty populated list met before `match` was ever bound
      raises UnboundLocalError. */
  function CacheInsertAsWritten(attribs: Option<seq<CacheEntry>>, e: Entity): (r: Result<Option<seq<CacheEntry>>>)
    ensures attribs.None? ==> r == Ok(None)
    ensures r.Err? ==> r.error == UnboundLocalError
    ensures attribs.Some? && r.Ok? ==>
              var a := attribs.value;
              && r.value.Some?
              && var b := r.value.value;
              && |b| == |a| + (if exists i | 0 <= i < |a| :: About(a[i], EntityKind(e)) then 0 else 1)
              && (forall i | 0 <= i < |a| :: Grown(a[i], b[i], e))
              && (forall i | 0 <= i < |a| :: LastSlotDecides(a[i], b[i], e))
              && (|b| > |a| ==> b[|a|] == Placeholder(EntityKind(e)))
  {
    if attribs.None? then Ok(None)
    else
      var st :- InsertLoopAsWritten(attribs.value, e);
      InsertLoopAsWrittenShape(attribs.value, e);
      InsertLoopAsWrittenLastSlot(attribs.value, e);
      InsertLoopAsWrittenFound(attribs.value, e);
      var out := if st.found then st.out else st.out + [Placeholder(EntityKind(e))];
      assert forall i | 0 <= i < |attribs.value| :: out[i] == st.out[i];
      Ok(Some(out))
  }

  /** A populated list whose last slot is not of the entity's kind does not
      receive it, although an earlier slot is; and since that list counts as
      standing for the kind, no placeholder is added either. */
  lemma CacheInsertAsWrittenLosesEntity(a: Entity, e: Entity)
    requires EntityKind(a) == EntityKind(e)
    ensures CacheInsertAsWritten(Some([Populated([Some(a), None])]), e) == Ok(Some([Populated([Some(a), None])]))
    ensures !Records([Populated([Some(a), None])], e)
  {
    var items := [Some(a), None];
    var entries := [Populated(items)];
    assert entries[..|entries| - 1] == [];
    assert InsertLoopAsWritten([], e) == Ok(InsertState([], false, None));
    assert SlotOfKind(items[0], EntityKind(e));
    var st := InsertLoopAsWritten(entries, e);
    assert st == InsertStepAsWritten(InsertState([], false, None), Populated(items), e);
    assert st == Ok(InsertState(entries, true, Some(false)));
  }

  /** An empty populated list before any non-empty one reaches `if match:`
      with `match` unbound. */
  lemma CacheInsertAsWrittenUnbound(e: Entity)
    ensures CacheInsertAsWritten(Some([Populated([])]), e) == Err(UnboundLocalError)
  {
    var entries := [Populated([])];
    assert entries[..|entries| - 1] == [];
    assert InsertLoopAsWritten([], e) == Ok(InsertState([], false, None));
    assert InsertLoopAsWritten(entries, e) == InsertStepAsWritten(InsertState([], false, None), Populated([]), e);
  }

  // ---------------------------------------------------------------------
  // The cache update as evidently intended.

  /** One entry of the intended update: a populated list that holds an
      instance of the entity's kind gains the entity at its end. */
  function InsertInto(entry: CacheEntry, e: Entity): (r: CacheEntry)
    ensures Grown(entry, r, e)
    ensures r != entry <==> entry.Populated? && HoldsKind(entry.items, EntityKind(e))
  {
    if entry.Populated? && HoldsKind(entry.items, EntityKind(e)) then Populated(entry.items + [Some(e)]) else entry
  }

  function InsertAll(entries: seq<CacheEntry>, e: Entity): (r: seq<CacheEntry>)
    ensures |r| == |entries|
    ensures forall i | 0 <= i < |entries| :: r[i] == InsertInto(entries[i], e)
  {
    if |entries| == 0 then [] else [InsertInto(entries[0], e)] + InsertAll(entries[1..], e)
  }

  /** The update as evidently intended: the same shape as the code's, but
      every populated list holding an instance of the kind gains the new
      entity, wherever that instance sits, and nothing raises. */
  function CacheInsert(attribs: Option<seq<CacheEntry>>, e: Entity): (r: Option<seq<CacheEntry>>)
    ensures attribs.None? <==> r.None?
    ensures attribs.Some? ==>
              var a := attribs.value;
              var b := r.value;
              && |b| == |a| + (if exists i | 0 <= i < |a| :: About(a[i], EntityKind(e)) then 0 else 1)
              && (forall i | 0 <= i < |a| :: Grown(a[i], b[i], e))
              && (forall i | 0 <= i < |a| :: b[i] != a[i] <==> a[i].Populated? && HoldsKind(a[i].items, EntityKind(e)))
              && (|b| > |a| ==> b[|a|] == Placeholder(EntityKind(e)))
  {
    if attribs.None? then None
    else
      var a := attribs.value;
      var b := InsertAll(a, e);
      if exists i | 0 <= i < |a| :: About(a[i], EntityKind(e)) then Some(b)
      else Some(b + [Placeholder(EntityKind(e))])
  }

  /** After the intended update a present cache records the new entity. */
  lemma CacheInsertRecords(attribs: Option<seq<CacheEntry>>, e: Entity)
    requires attribs.Some?
    ensures Records(CacheInsert(attribs, e).value, e)
  {
    var a := attribs.value;
    var b := CacheInsert(attribs, e).value;
    if exists i | 0 <= i < |a| :: About(a[i], EntityKind(e)) {
      var i :| 0 <= i < |a| && About(a[i], EntityKind(e));
      if a[i] != Placeholder(EntityKind(e)) {
        assert b[i] == Populated(a[i].items + [Some(e)]);
      }
    } else {
      assert b[|a|] == Placeholder(EntityKind(e));
    }
  }

  // ---------------------------------------------------------------------
  // getAtribTypes

  /** The distinct kinds of the keys, in order of first occurrence. */
  function DistinctKinds(ks: seq<Key>): (r: seq<Kind>)
    ensures NoDup(r)
    ensures forall k :: k in r <==> exists i | 0 <= i < |ks| :: KindOf(ks[i]) == k
  {
    if |ks| == 0 then []
    else
      var init := DistinctKinds(ks[..|ks| - 1]);
      var k := KindOf(ks[|ks| - 1]);
      assert forall i | 0 <= i < |ks| - 1 :: ks[..|ks| - 1][i] == ks[i];
      if k in init then init else init + [k]
  }

  function Placeholders(kinds: seq<Kind>): (r: seq<CacheEntry>)
    ensures |r| == |kinds| && forall i | 0 <= i < |kinds| :: r[i] == Placeholder(kinds[i])
  {
    if |kinds| == 0 then [] else [Placeholder(kinds[0])] + Placeholders(kinds[1..])
  }

  /** What `getAtribTypes` turns an old entry into: a populated list
      becomes the class of its first slot (`NoneType` for None), and an
      empty one raises IndexError. */
  function TypeEntry(entry: CacheEntry): (r: Result<CacheEntry>)
    ensures r.Err? <==> entry == Populated([])
    ensures r.Err? ==> r.error == IndexError
    ensures r.Ok? && !entry.Populated? ==> r.value == entry
    ensures r.Ok? && entry.Populated? ==> r.value.ClassEntry?
  {
    match entry
    case Populated(items) =>
      if |items| == 0 then Err(IndexError)
      else Ok(ClassEntry(if items[0].Some? then Some(EntityKind(items[0].value)) else None))
    case _ => Ok(entry)
  }

  /** Append each converted old entry that is not already present. */
  function AppendNew(acc: seq<CacheEntry>, entries: seq<CacheEntry>): (r: Result<seq<CacheEntry>>)
    ensures r.Err? <==> Populated([]) in entries
    ensures r.Err? ==> r.error == IndexError
    ensures r.Ok? ==> |acc| <= |r.value| && r.value[..|acc|] == acc
    ensures r.Ok? && NoDup(acc) ==> NoDup(r.value)
  {
    if |entries| == 0 then Ok(acc)
    else
      var init := entries[..|entries| - 1];
      var last := entries[|entries| - 1];
      SplitLast(entries);
      var front :- AppendNew(acc, init);
      var x :- TypeEntry(last);
      if x in front then Ok(front)
      else
        assert (front + [x])[..|acc|] == front[..|acc|];
        Ok(front + [x])
  }

  /** Some old entry converts to x. */
  predicate Converted(entries: seq<CacheEntry>, x: CacheEntry) {
    exists i | 0 <= i < |entries| :: TypeEntry(entries[i]) == Ok(x)
  }

  /** What the conversion holds: the accumulated entries and the converted
      old ones, and nothing else. */
  lemma {:induction false} AppendNewMember(acc: seq<CacheEntry>, entries: seq<CacheEntry>, x: CacheEntry)
    requires AppendNew(acc, entries).Ok?
    ensures x in AppendNew(acc, entries).value <==> x in acc || Converted(entries, x)
  {
    if |entries| > 0 {
      var init := entries[..|entries| - 1];
      var last := entries[|entries| - 1];
      SplitLast(entries);
      AppendNewMember(acc, init, x);
      var front := AppendNew(acc, init).value;
      var y := TypeEntry(last).value;
      assert AppendNew(acc, entries).value == if y in front then front else front + [y];
      if Converted(entries, x) {
        var i :| 0 <= i < |entries| && TypeEntry(entries[i]) == Ok(x);
        if i < |init| {
          assert TypeEntry(init[i]) == Ok(x);
        }
      }
      if Converted(init, x) {
        var i :| 0 <= i < |init| && TypeEntry(init[i]) == Ok(x);
        assert TypeEntry(entries[i]) == Ok(x);
      }
      if x == y {
        assert TypeEntry(entries[|entries| - 1]) == Ok(x);
      }
    }
  }

  /** Every old entry that is not a populated list survives the conversion. */
  lemma AppendNewKeeps(acc: seq<CacheEntry>, entries: seq<CacheEntry>)
    requires AppendNew(acc, entries).Ok?
    ensures forall i | 0 <= i < |entries| && !entries[i].Populated? :: entries[i] in AppendNew(acc, entries).value
  {
    forall i | 0 <= i < |entries| && !entries[i].Populated? ensures entries[i] in AppendNew(acc, entries).value {
      assert TypeEntry(entries[i]) == Ok(entries[i]);
      AppendNewMember(acc, entries, entries[i]);
    }
  }

  /** Without populated lists to start from, the conversion leaves none. */
  lemma AppendNewNoLists(acc: seq<CacheEntry>, entries: seq<CacheEntry>)
    requires AppendNew(acc, entries).Ok?
    requires forall i | 0 <= i < |acc| :: !acc[i].Populated?
    ensures forall x | x in AppendNew(acc, entries).value :: !x.Populated?
  {
    forall x | x in AppendNew(acc, entries).value ensures !x.Populated? {
      AppendNewMember(acc, entries, x);
      if Converted(entries, x) {
        var i :| 0 <= i < |entries| && TypeEntry(entries[i]) == Ok(x);
      }
    }
  }

  /** The placeholders for the distinct kinds of ks name each kind of ks
      once. */
  lemma PlaceholdersCover(ks: seq<Key>)
    ensures var acc := Placeholders(DistinctKinds(ks));
            && NoDup(acc)
            && (forall k | k in ks :: Placeholder(KindOf(k)) in acc)
            && (forall i | 0 <= i < |acc| :: acc[i].Placeholder?)
  {
    var kinds := DistinctKinds(ks);
    var acc := Placeholders(kinds);
    forall i, j | 0 <= i < j < |acc| ensures acc[i] != acc[j] {
      assert kinds[i] != kinds[j];
    }
    forall k | k in ks ensures Placeholder(KindOf(k)) in acc {
      var i :| 0 <= i < |ks| && ks[i] == k;
      assert KindOf(k) in kinds;
      var j :| 0 <= j < |kinds| && kinds[j] == KindOf(k);
      assert acc[j] == Placeholder(KindOf(k));
    }
  }

  /** `getAtribTypes`: a placeholder for each distinct kind among the
      container's attribute keys, in order, then the old entries (converted)
      that are not present yet. A missing container, or an attribute in its
      place, has no `attributes` and raises AttributeError. */
  function AtribTypes(container: Option<Record>, attribs: Option<seq<CacheEntry>>): (r: Result<seq<CacheEntry>>)
    ensures container.None? || container.value.AttribRec? ==> r == Err(AttributeError)
    ensures container.Some? && container.value.ContainerRec? ==>
              (r.Err? <==> attribs.Some? && Populated([]) in attribs.value)
    ensures r.Err? ==> r.error in {AttributeError, IndexError}
    ensures r.Ok? ==> NoDup(r.value)
    ensures r.Ok? ==>
              var kinds := DistinctKinds(container.value.c.attributes);
              |kinds| <= |r.value| && r.value[..|kinds|] == Placeholders(kinds)
    ensures r.Ok? ==> forall k | k in container.value.c.attributes :: Placeholder(KindOf(k)) in r.value
    ensures r.Ok? && attribs.Some? ==>
              forall i | 0 <= i < |attribs.value| && !attribs.value[i].Populated? :: attribs.value[i] in r.value
    ensures r.Ok? ==> forall x | x in r.value && x.Populated? :: false
    ensures r.Ok? ==>
              forall x :: x in r.value <==>
                x in Placeholders(DistinctKinds(container.value.c.attributes)) || (attribs.Some? && Converted(attribs.value, x))
  {
    if container.None? || container.value.AttribRec? then Err(AttributeError)
    else
      var acc := Placeholders(DistinctKinds(container.value.c.attributes));
      PlaceholdersCover(container.value.c.attributes);
      if attribs.None? then Ok(acc)
      else
        var r :- AppendNew(acc, attribs.value);
        AppendNewKeeps(acc, attribs.value);
        AppendNewNoLists(acc, attribs.value);
        assert forall x :: x in r <==> x in acc || Converted(attribs.value, x) by {
          forall x ensures x in r <==> x in acc || Converted(attribs.value, x) {
            AppendNewMember(acc, attribs.value, x);
          }
        }
        assert forall x | x in acc :: x in r[..|acc|];
        Ok(r)
  }

  /** Converting a list that `getAtribTypes` built, which holds no
      populated list and starts with the placeholders, appends nothing new. */
  lemma {:induction false} AppendNewOwnPrefix(acc: seq<CacheEntry>, r: seq<CacheEntry>, n: nat)
    requires |acc| <= |r| && r[..|acc|] == acc && NoDup(r)
    requires forall i | 0 <= i < |r| :: !r[i].Populated?
    requires n <= |r|
    ensures AppendNew(acc, r[..n]) == Ok(r[..if n < |acc| then |acc| else n])
  {
    if n > 0 {
      AppendNewOwnPrefix(acc, r, n - 1);
      var entries := r[..n];
      assert entries[..n - 1] == r[..n - 1];
      assert entries[n - 1] == r[n - 1];
      assert TypeEntry(r[n - 1]) == Ok(r[n - 1]);
      if n - 1 < |acc| {
        assert r[n - 1] == acc[n - 1];
      } else {
        assert r[..n - 1] + [r[n - 1]] == r[..n];
        assert r[n - 1] !in r[..n - 1];
      }
    }
  }

  /** `getAtribTypes` is idempotent: applied to its own result it
      changes nothing. */
  lemma AtribTypesIdempotent(container: Option<Record>, attribs: Option<seq<CacheEntry>>)
    requires AtribTypes(container, attribs).Ok?
    ensures AtribTypes(container, Some(AtribTypes(container, attribs).value)) == AtribTypes(container, attribs)
  {
    var r := AtribTypes(container, attribs).value;
    var acc := Placeholders(DistinctKinds(container.value.c.attributes));
    AppendNewOwnPrefix(acc, r, |r|);
    assert r[..|r|] == r;
  }

  // ---------------------------------------------------------------------
  // Fetching instances into the cache.

  /** The cache the fetch methods start from: the element's own, or the one
      `getAtribTypes` builds when there is none yet. */
  function Types(elem: Element): (r: Result<seq<CacheEntry>>)
    ensures elem.attribs.Some? ==> r == Ok(elem.attribs.value)
    ensures elem.attribs.None? ==> r == AtribTypes(elem.container, None)
  {
    if elem.attribs.Some? then Ok(elem.attribs.value) else AtribTypes(elem.container, None)
  }

  /** e is a stored instance of the kind owned by (at or below) a. */
  predicate IsInstance(db: Db, kind: Kind, a: Key, e: Entity) {
    e.key in db.records && e.rec == db.records[e.key] && KindOf(e.key) == kind && Descends(e.key, a)
  }

  /** `kind.query(ancestor=a).fetch()`: every stored instance of the kind
      owned by a, once each. */
  function Instances(db: Db, kind: Kind, a: Key): (es: seq<Entity>)
    requires Valid(db)
    ensures forall e :: e in es <==> IsInstance(db, kind, a, e)
    ensures NoDup(es)
  {
    Fetch(db, Query(db, kind, a))
  }

  /** The first fetched instance in a populated list. */
  function FirstPresent(items: seq<Option<Entity>>): (r: Option<Entity>)
    ensures r.None? <==> forall i | 0 <= i < |items| :: items[i].None?
    ensures r.Some? ==> exists i | 0 <= i < |items| :: items[i] == r && forall j | 0 <= j < i :: items[j].None?
  {
    if |items| == 0 then None
    else if items[0].Some? then items[0]
    else
      var r := FirstPresent(items[1..]);
      assert forall i | 1 <= i < |items| :: items[i] == items[1..][i - 1];
      r
  }

  /** The entries `getAttribDeep` carries over: populated lists whose first
      fetched instance is of another kind, placeholders of other kinds, and
      class entries (never equal to a class name). */
  predicate DeepKeeps(entry: CacheEntry, kind: Kind) {
    match entry
    case Populated(items) => FirstPresent(items).Some? && EntityKind(FirstPresent(items).value) != kind
    case Placeholder(k) => k != kind
    case ClassEntry(_) => true
  }

  /** The entries `getAttribDeep` carries over from a cache, in their
      order. */
  function DeepKept(types: seq<CacheEntry>, kind: Kind): (r: seq<CacheEntry>)
    ensures forall x :: x in r <==> x in types && DeepKeeps(x, kind)
    ensures (forall i | 0 <= i < |types| :: DeepKeeps(types[i], kind)) ==> r == types
  {
    Filter(types, x => DeepKeeps(x, kind))
  }

  /** Carrying over keeps the order of the entries: what stood before an
      entry still stands before it, and each entry is kept or dropped on
      its own. */
  lemma DeepKeptSplit(xs: seq<CacheEntry>, x: CacheEntry, ys: seq<CacheEntry>, kind: Kind)
    ensures DeepKept(xs + [x] + ys, kind) ==
              DeepKept(xs, kind) + (if DeepKeeps(x, kind) then [x] else []) + DeepKept(ys, kind)
  {
    FilterSplit(xs, x, ys, y => DeepKeeps(y, kind));
  }

  /** `getAttribDeep`: fetch every instance of the kind owned by the
      element and make them the cache's last entry, dropping what stood for
      the kind before. Inside the transaction a query without an ancestor
      is refused with BadRequestError. Nothing is written. */
  function Deep(elem: Element, db: Db, kind: Kind): (r: Step<seq<Entity>>)
    requires Valid(db)
    ensures r.db == db
    ensures Types(elem).Err? ==> r.elem == elem && r.result == Err(Types(elem).error)
    ensures Types(elem).Ok? && elem.key.None? ==>
              r.elem == elem.(attribs := Some(Types(elem).value)) && r.result == Err(BadRequestError)
    ensures r.result.Ok? <==> Types(elem).Ok? && elem.key.Some?
    ensures r.result.Ok? ==>
              var es := r.result.value;
              NoDup(es) && forall e :: e in es <==> IsInstance(db, kind, elem.key.value, e)
    ensures r.result.Ok? ==>
              && r.elem == elem.(attribs := r.elem.attribs)
              && r.elem.attribs.Some?
              && var c := r.elem.attribs.value;
              && |c| > 0
              && c[|c| - 1] == Populated(Wrap(r.result.value))
              && c[..|c| - 1] == DeepKept(Types(elem).value, kind)
              && (forall x :: x in c[..|c| - 1] <==> x in Types(elem).value && DeepKeeps(x, kind))
  {
    match Types(elem)
    case Err(e) => Step(db, elem, Err(e))
    case Ok(types) =>
      if elem.key.None? then Step(db, elem.(attribs := Some(types)), Err(BadRequestError))
      else
        var kept := DeepKept(types, kind);
        var es := Instances(db, kind, elem.key.value);
        var c := kept + [Populated(Wrap(es))];
        assert c[..|c| - 1] == kept;
        Step(db, elem.(attribs := Some(c)), Ok(es))
  }

  /** After `getAttribDeep` the kind has no placeholder left, and when
      every entry stood for another kind the cache is the old one with the
      fetched list appended. */
  lemma DeepReplacesKind(elem: Element, db: Db, kind: Kind)
    requires Valid(db)
    requires Deep(elem, db, kind).result.Ok?
    ensures Placeholder(kind) !in Deep(elem, db, kind).elem.attribs.value
    ensures (forall i | 0 <= i < |Types(elem).value| :: DeepKeeps(Types(elem).value[i], kind)) ==>
              Deep(elem, db, kind).elem.attribs.value == Types(elem).value + [Populated(Wrap(Deep(elem, db, kind).result.value))]
  {
  }

  /** A populated list every slot of which holds an instance of the kind:
      `getAttribShallow` treats the kind as fetched already. */
  predicate FullyPopulated(entry: CacheEntry, kind: Kind) {
    entry.Populated? && |entry.items| > 0 && forall i | 0 <= i < |entry.items| :: SlotOfKind(entry.items[i], kind)
  }

  /** The entries `getAttribShallow` carries over: populated lists with an
      instance of another kind, placeholders of other kinds, and class
      entries. */
  predicate ShallowKeeps(entry: CacheEntry, kind: Kind) {
    match entry
    case Populated(items) => exists i | 0 <= i < |items| :: items[i].Some? && EntityKind(items[i].value) != kind
    case Placeholder(k) => k != kind
    case ClassEntry(_) => true
  }

  /** The active instances of the kind owned by a, in datastore order. */
  function ActiveInstances(db: Db, kind: Kind, a: Key): (ks: seq<Key>)
    requires Valid(db)
    ensures forall k :: k in ks <==> k in Query(db, kind, a) && RecordActive(db.records[k])
  {
    Filter(Query(db, kind, a), k => k in db.records && RecordActive(db.records[k]))
  }

  /** The shallow entry for a kind: the first active instance, padded with
      None up to the number of instances, `attributes + [None] * (n - 1)`. */
  function ShallowEntry(db: Db, kind: Kind, a: Key): (r: CacheEntry)
    requires Valid(db)
    ensures r.Populated?
    ensures var n := |Query(db, kind, a)|;
            var act := ActiveInstances(db, kind, a);
            && |r.items| == (if |act| > 0 then n else if n > 0 then n - 1 else 0)
            && (forall i | 1 <= i < |r.items| :: r.items[i].None?)
            && (|r.items| > 0 ==> (r.items[0].Some? <==> |act| > 0))
            && (|act| > 0 ==> r.items[0] == Some(Entity(act[0], db.records[act[0]])))
  {
    var n := |Query(db, kind, a)|;
    var act := ActiveInstances(db, kind, a);
    if |act| > 0 then
      assert act[0] in Query(db, kind, a);
      Populated([Some(Entity(act[0], db.records[act[0]]))] + Nones(n - 1))
    else Populated(Nones(n - 1))
  }

  /** With exactly one active instance the shallow entry is that instance
      followed by None for each of the others. */
  lemma ShallowEntryExactlyOne(db: Db, kind: Kind, a: Key, k: Key)
    requires Valid(db)
    requires k in Query(db, kind, a) && RecordActive(db.records[k])
    requires forall q | q in Query(db, kind, a) && q != k :: !RecordActive(db.records[q])
    ensures ShallowEntry(db, kind, a) ==
              Populated([Some(Entity(k, db.records[k]))] + Nones(|Query(db, kind, a)| - 1))
  {
    var act := ActiveInstances(db, kind, a);
    assert k in act;
    assert act[0] == k;
  }

  /** The entries `getAttribShallow` carries over from a cache, in their
      order. */
  function ShallowKept(types: seq<CacheEntry>, kind: Kind): (r: seq<CacheEntry>)
    ensures forall x :: x in r <==> x in types && ShallowKeeps(x, kind)
    ensures (forall i | 0 <= i < |types| :: ShallowKeeps(types[i], kind)) ==> r == types
  {
    Filter(types, x => ShallowKeeps(x, kind))
  }

  /** Carrying over keeps the order of the entries: what stood before an
      entry still stands before it, and each entry is kept or dropped on
      its own. */
  lemma ShallowKeptSplit(xs: seq<CacheEntry>, x: CacheEntry, ys: seq<CacheEntry>, kind: Kind)
    ensures ShallowKept(xs + [x] + ys, kind) ==
              ShallowKept(xs, kind) + (if ShallowKeeps(x, kind) then [x] else []) + ShallowKept(ys, kind)
  {
    FilterSplit(xs, x, ys, y => ShallowKeeps(y, kind));
  }

  /** The cache `getAttribShallow` leaves: the entries it carries over, in
      order, then the kind's shallow entry. */
  function ShallowCache(db: Db, types: seq<CacheEntry>, kind: Kind, a: Key): (c: seq<CacheEntry>)
    requires Valid(db)
    ensures |c| > 0 && c[|c| - 1] == ShallowEntry(db, kind, a)
    ensures c[..|c| - 1] == ShallowKept(types, kind)
    ensures forall x :: x in c[..|c| - 1] <==> x in types && ShallowKeeps(x, kind)
    ensures (forall i | 0 <= i < |types| :: ShallowKeeps(types[i], kind)) ==> c == types + [ShallowEntry(db, kind, a)]
  {
    var kept := ShallowKept(types, kind);
    var c := kept + [ShallowEntry(db, kind, a)];
    assert c[..|c| - 1] == kept;
    c
  }

  /** `getAttribShallow`: unless the kind is fully fetched already, put the
      kind's shallow entry last in the cache and return its active
      instance. With no active instance the cache is still replaced before
      `attributes[0]` raises IndexError. Nothing is written. */
  function Shallow(elem: Element, db: Db, kind: Kind): (r: Step<Option<Entity>>)
    requires Valid(db)
    ensures r.db == db
    ensures Types(elem).Err? ==> r.elem == elem && r.result == Err(Types(elem).error)
    ensures Types(elem).Ok? && (exists i | 0 <= i < |Types(elem).value| :: FullyPopulated(Types(elem).value[i], kind)) ==>
              r.elem == elem.(attribs := Some(Types(elem).value)) && r.result == Ok(None)
    ensures r.result == Err(BadRequestError) <==>
              && Types(elem).Ok? && elem.key.None?
              && forall i | 0 <= i < |Types(elem).value| :: !FullyPopulated(Types(elem).value[i], kind)
    ensures r.result == Err(BadRequestError) ==> r.elem == elem.(attribs := Some(Types(elem).value))
    ensures Types(elem).Ok? && elem.key.Some? &&
            (forall i | 0 <= i < |Types(elem).value| :: !FullyPopulated(Types(elem).value[i], kind)) ==>
              && r.elem == elem.(attribs := Some(ShallowCache(db, Types(elem).value, kind, elem.key.value)))
              && (r.result == Err(IndexError) <==> |ActiveInstances(db, kind, elem.key.value)| == 0)
    ensures Types(elem).Ok? && elem.key.Some? &&
            (forall i | 0 <= i < |Types(elem).value| ::
               !FullyPopulated(Types(elem).value[i], kind) && ShallowKeeps(Types(elem).value[i], kind)) ==>
              r.elem.attribs == Some(Types(elem).value + [ShallowEntry(db, kind, elem.key.value)])
    ensures r.result.Ok? && r.result.value.Some? ==>
              IsInstance(db, kind, elem.key.value, r.result.value.value) && RecordActive(r.result.value.value.rec)
    ensures r.result.Ok? && r.result.value.Some? ==>
              && var act := ActiveInstances(db, kind, elem.key.value);
              && |act| > 0 && r.result.value.value == Entity(act[0], db.records[act[0]])
              && r.elem.attribs.Some? && |r.elem.attribs.value| > 0
              && var last := r.elem.attribs.value[|r.elem.attribs.value| - 1];
              && last.Populated? && |last.items| > 0 && last.items[0] == r.result.value
  {
    match Types(elem)
    case Err(e) => Step(db, elem, Err(e))
    case Ok(types) =>
      if exists i | 0 <= i < |types| :: FullyPopulated(types[i], kind) then
        Step(db, elem.(attribs := Some(types)), Ok(None))
      else if elem.key.None? then Step(db, elem.(attribs := Some(types)), Err(BadRequestError))
      else
        var c := ShallowCache(db, types, kind, elem.key.value);
        var act := ActiveInstances(db, kind, elem.key.value);
        if |act| == 0 then Step(db, elem.(attribs := Some(c)), Err(IndexError))
        else
          assert act[0] in Query(db, kind, elem.key.value);
          Step(db, elem.(attribs := Some(c)), Ok(Some(Entity(act[0], db.records[act[0]]))))
  }

  // ---------------------------------------------------------------------
  // getAttribShallowAll

  /** One cache entry as `getAttribShallowAll` treats it: a populated list
      passes through, a placeholder is fetched shallowly (refused without a
      key), and a class entry is no name `globals()` knows. */
  function ShallowOne(db: Db, entry: CacheEntry, a: Option<Key>): (r: Result<CacheEntry>)
    requires Valid(db)
    ensures r.Err? <==> entry.ClassEntry? || (entry.Placeholder? && a.None?)
    ensures r.Err? ==> r.error in {KeyError, BadRequestError}
    ensures r.Ok? ==> r.value.Populated?
    ensures r.Ok? && entry.Populated? ==> r.value == entry
    ensures r.Ok? && entry.Placeholder? ==> r.value == ShallowEntry(db, entry.kind, a.value)
  {
    match entry
    case Populated(_) => Ok(entry)
    case Placeholder(k) => if a.None? then Err(BadRequestError) else Ok(ShallowEntry(db, k, a.value))
    case ClassEntry(_) => Err(KeyError)
  }

  /** Replace every placeholder by its shallow entry, passing populated
      lists through. The first entry that `ShallowOne` refuses decides the
      error. */
  function ShallowAllEntries(db: Db, entries: seq<CacheEntry>, a: Option<Key>): (r: Result<seq<CacheEntry>>)
    requires Valid(db)
    ensures r.Err? <==> exists i | 0 <= i < |entries| :: ShallowOne(db, entries[i], a).Err?
    ensures r.Err? ==> r.error in {KeyError, BadRequestError}
    ensures r.Ok? ==> |r.value| == |entries|
    ensures r.Ok? ==> forall i | 0 <= i < |entries| :: Ok(r.value[i]) == ShallowOne(db, entries[i], a)
  {
    if |entries| == 0 then Ok([])
    else
      var head :- ShallowOne(db, entries[0], a);
      var rest :- ShallowAllEntries(db, entries[1..], a);
      assert forall i | 1 <= i < |entries| :: entries[i] == entries[1..][i - 1];
      Ok([head] + rest)
  }

  /** The entries `getAttribShallowAll` produces: errors exactly at class
      entries and, without a key, at placeholders; otherwise populated lists
      pass through and placeholders become their shallow entries. */
  lemma ShallowAllEntriesShape(db: Db, entries: seq<CacheEntry>, a: Option<Key>)
    requires Valid(db)
    ensures ShallowAllEntries(db, entries, a).Err? <==>
              exists i | 0 <= i < |entries| :: entries[i].ClassEntry? || (entries[i].Placeholder? && a.None?)
    ensures var r := ShallowAllEntries(db, entries, a);
            r.Ok? ==> && (forall i | 0 <= i < |entries| && entries[i].Populated? :: r.value[i] == entries[i])
                      && (forall i | 0 <= i < |entries| && entries[i].Placeholder? ::
                            r.value[i] == ShallowEntry(db, entries[i].kind, a.value))
                      && (forall i | 0 <= i < |r.value| :: r.value[i].Populated?)
  {
    var r := ShallowAllEntries(db, entries, a);
    if r.Ok? {
      forall i | 0 <= i < |entries| ensures ShallowOne(db, entries[i], a).Ok? {
        assert Ok(r.value[i]) == ShallowOne(db, entries[i], a);
      }
    }
  }

  /** `getAttribShallowAll`: the cache (built first if missing) with every
      placeholder fetched shallowly. On an error the cache stays as
      `getAtribTypes` left it. Nothing is written. */
  function ShallowAll(elem: Element, db: Db): (r: Step<()>)
    requires Valid(db)
    ensures r.db == db
    ensures r.elem.key == elem.key && r.elem.container == elem.container
    ensures r.elem.keys == elem.keys && r.elem.containers == elem.containers
    ensures Types(elem).Err? ==> r.elem == elem && r.result == Err(Types(elem).error)
    ensures Types(elem).Ok? ==> r.elem.attribs.Some? && |r.elem.attribs.value| == |Types(elem).value|
    ensures r.result.Ok? <==> Types(elem).Ok? && ShallowAllEntries(db, Types(elem).value, elem.key).Ok?
    ensures r.result.Ok? ==> forall i | 0 <= i < |r.elem.attribs.value| :: r.elem.attribs.value[i].Populated?
    ensures r.result.Ok? ==>
              && var types := Types(elem).value;
              && (forall i | 0 <= i < |types| && types[i].Populated? :: r.elem.attribs.value[i] == types[i])
              && (forall i | 0 <= i < |types| && types[i].Placeholder? ::
                    r.elem.attribs.value[i] == ShallowEntry(db, types[i].kind, elem.key.value))
    ensures Types(elem).Ok? && r.result.Err? ==>
              && r.elem.attribs == Some(Types(elem).value)
              && r.result.error in {KeyError, BadRequestError}
              && exists i | 0 <= i < |Types(elem).value| ::
                   Types(elem).value[i].ClassEntry? || (Types(elem).value[i].Placeholder? && elem.key.None?)
  {
    match Types(elem)
    case Err(e) => Step(db, elem, Err(e))
    case Ok(types) =>
      ShallowAllEntriesShape(db, types, elem.key);
      match ShallowAllEntries(db, types, elem.key)
      case Err(e) => Step(db, elem.(attribs := Some(types)), Err(e))
      case Ok(out) => Step(db, elem.(attribs := Some(out)), Ok(()))
  }

  /** A second `getAttribShallowAll` finds only populated lists and
      changes nothing. */
  lemma ShallowAllIdempotent(elem: Element, db: Db)
    requires Valid(db)
    requires ShallowAll(elem, db).result.Ok?
    ensures ShallowAll(ShallowAll(elem, db).elem, db) == ShallowAll(elem, db)
  {
    var once := ShallowAll(elem, db).elem;
    var c := once.attribs.value;
    var again := ShallowAllEntries(db, c, once.key);
    assert again.Ok?;
    assert again.value == c;
  }
}
