# Content tree and typed properties, modelled in Dafny

This project models the core of a small content-tree backend. Its nodes
are containers: the root, then areas, crags and climbs. Each container
carries an `active` flag, a content type, a parent, an ordered child list
and a list of attribute keys. Attributes are records written by users: a
Name or a Description with a text, an author and an `active` flag. The
backend exists in two versions, and both are modelled:

- `backend/data_ndb.py` uses the datastore. Its `Element` class looks
  nodes up with filters and creates them. Creating the root is gated on
  an administrator. `addAttrib` upserts attributes per author, and
  `setAttribActive` makes one attribute active. The class also keeps an
  `attribs` cache that the fetch methods rebuild: `getAtribTypes`,
  `getAttribDeep`, `getAttribShallow` and `getAttribShallowAll`.
- `backend/data_dict.py` is an in-memory version. It has a descriptor
  layer of typed fields: `AllProperties`, `ListValue`, `EnumProperty`
  and the string properties. It stores records in a dictionary
  (`DataStore`) under keys `dct_<n>`, drawn from a counter. Its own
  `Element.lookup` and `Element.create` work over that dictionary.

Everything is modelled functionally. Python values, records and stores
are immutable datatypes. Each method is a function from the old state to
the new state plus a `Result` that names the Python exception raised.
Each `@ndb.transactional` method is one atomic step: when it raises, the
datastore is unchanged, but in-memory assignments made before the raise
stay in the returned element. The current user and the administrator
flag are parameters. So are the datastore's id allocator and query
order: `nextId` stands for the allocator, and `order` is the order
queries return keys in.

Files:

- `wrappers.dfy`: `Option`, `Result`, the Python exceptions, and `User`.
- `pyvalue.dfy`: the Python values the typed fields see, and `type()`,
  `==` and `in` on them. `==` follows Python, so `True == 1`.
- `properties.dfy`: `checkInput`, the field constructors, `__get__` and
  `__set__`, and `ListValue.__setitem__` / `append`.
- `string_props.dfy`: `StringPropertyRepeated` and `StringPropertySingle`.
- `dict_store.dfy`: `DataStore.get`, `put` and `make_key`.
- `dict_element.dfy`: the in-memory schema, and `Element.lookup*` and
  `Element.create`.
- `ndb_model.dfy`: keys with ancestor paths, the records, the datastore,
  ancestor queries, and the `Element` object.
- `ndb_lookup.dfy`: `lookup`, `lookupSingle` and `lookupMultiple`.
- `ndb_create.dfy`: `create`, covering both root bootstrap and child
  creation.
- `attrib_cache.dfy`: the `attribs` cache operations, and the cache
  update at the end of `addAttrib`.
- `ndb_attrib.dfy`: `addAttrib`, `copyAttrib` and `setAttribActive`.

Behaviours of the code worth noting:

- In the datastore version, child creation appends the child to the
  parent's `menuChildren` but does not set the parent active
  (`backend/data_ndb.py:146-148`). The in-memory version does set it
  (`backend/data_dict.py:402-405`). Both versions leave a parent that
  already lists the new key alone.
- The cache update in `addAttrib` never turns a placeholder into a list
  (`backend/data_ndb.py:195-198`).
- A populated list receives the new attribute only when its last slot
  holds that kind (Findings, first row).
- The cache is a list of entries, not a map from kind to entry.
- `getAttribDeep` and `getAttribShallow` drop some populated lists of
  other kinds. Deep drops a list whose first fetched instance is of the
  requested kind, or which holds no instance at all. Shallow drops a list
  whose every instance is of the requested kind.

## Model

| member | source | states |
|---|---|---|
| PyValue.CountOfTypeIsLength | backend/data_dict.py:37 | counting the items of exactly the field's type and comparing the count with the length is the same as every item having that type |
| Properties.PublicValuesExact | backend/data_dict.py:117 | the enum's values are exactly the values of the class attributes whose names do not start with `_` |
| Properties.CheckInputIsAdmits | backend/data_dict.py:33-37 | `checkInput` accepts None or a value of exactly the data type for a scalar field, and only a list all of whose items have that type for a repeated field, in both directions |
| Properties.EnumAccepts | backend/data_dict.py:115-119 | a scalar enum field accepts None or a value equal to one of the enum's public values, and nothing else |
| Properties.NewField | backend/data_dict.py:39-52 | a repeated field without a default gets `[]`; otherwise construction succeeds exactly when the default passes `checkInput`, and raises TypeError when it does not |
| Properties.BooleanProperty | backend/data_dict.py:106-108 | a scalar bool field can be built exactly from None or a bool default |
| Properties.StringProperty | backend/data_dict.py:122-124 | a scalar string field can be built exactly from None or a str default |
| Properties.EnumProperty | backend/data_dict.py:111-113 | a scalar enum field can be built exactly from None or a member value |
| Properties.Get | backend/data_dict.py:54-70 | a field never set reads as its default, in the shape the field prescribes; a set field reads as what was stored |
| Properties.Set | backend/data_dict.py:72-89 | an inadmissible value raises TypeError with nothing changed; otherwise only this field changes, and it holds the value, wrapped as a `ListValue` when repeated |
| Properties.SetThenGet | backend/data_dict.py:54-89 | after a successful set, get returns that value, a `ListValue` with the same items when the field is repeated |
| Properties.ListSetItem | backend/data_dict.py:100-102 | `list.__setitem__` replaces one item for an in-range index (negative from the end), or replaces a slice by the iterable's items; a bad index gives IndexError |
| Properties.SetItemAsWritten | backend/data_dict.py:98-104 | a value that is neither of the element type nor an all-element-type list raises TypeError and leaves the list unchanged; otherwise the plain list assignment happens |
| Properties.SetItemAsWrittenNestsList | backend/data_dict.py:101-102 | the index assignment `lv[0] = ["b"]` on a list of strings is accepted and nests a list inside it |
| Properties.SetItem | backend/data_dict.py:98-104 | the intended `__setitem__`: an index takes one value of the element type, a slice takes an all-element-type list, and a list whose items all have the type keeps that property |
| Properties.ListSetItemKeepsType | backend/data_dict.py:100-102 | storing one value of a type at an index, or the items of an iterable of that type over a slice, keeps a list of that type homogeneous |
| Properties.SetSliceAsWritten | backend/data_dict.py:91-104 | a plain slice statement reaches the inherited `list.__setslice__`: any iterable's items replace the clipped slice unchecked, and a value that is not iterable raises TypeError |
| Properties.SetSliceAsWrittenBreaksType | backend/data_dict.py:91-104 | `lv[0:1] = [1]` on a `ListValue` of strings stores the int unchecked |
| Properties.SetItemSpanRefinesSetSlice | backend/data_dict.py:91-104 | the checked slice assignment accepts exactly the all-element-type lists, and where it accepts it stores what the unchecked slice statement stores |
| Properties.AppendAsWritten | backend/data_dict.py:91-96 | the inherited `append` adds any value at the end |
| Properties.AppendAsWrittenBreaksType | backend/data_dict.py:91-104 | appending an int to a `ListValue` of strings goes through unchecked |
| Properties.Append | backend/data_dict.py:91-104 | the intended `append` succeeds exactly for a value of the element type, adds it at the end, and keeps the list's items all of that type |
| StringProps.Normalise | backend/data_dict.py:152-175 | construction and set map None to `[]`, a str to a one-item list, and a list of str to itself; anything else raises TypeError |
| StringProps.NormaliseRoundTrip | backend/data_dict.py:165-171 | assigning a list of strings yields exactly those strings |
| StringProps.RepeatedSetItem | backend/data_dict.py:180-184 | item assignment takes only a str, raising TypeError otherwise; an index in range has exactly that item replaced, one out of range raises IndexError, and a slice object has the clipped slice replaced by the str's characters, one string each |
| StringProps.SliceAssignStrings | backend/data_dict.py:180-182 | a slice assignment of a str, read back as strings, replaces the clipped slice by the str's one-character strings |
| StringProps.IndexAssignStrings | backend/data_dict.py:180-182 | an index assignment of a str, read back as strings, is the same index assignment on the strings |
| StringProps.StringsOfStrValues | backend/data_dict.py:165-171 | reading the strings back from their `str` values gives the same strings |
| StringProps.SingleValue | backend/data_dict.py:186-204 | a single string field takes None or a str and raises TypeError otherwise |
| StringProps.SingleValueRoundTrip | backend/data_dict.py:194-204 | whatever a single string field holds can be assigned back unchanged |
| DictStore.Decimal | backend/data_dict.py:256 | `'%s' % n` is a non-empty run of decimal digits, one digit long exactly below 10 |
| DictStore.DecimalInjective | backend/data_dict.py:256 | different counter values print differently |
| DictStore.MakeKeyDistinct | backend/data_dict.py:254-256 | keys made from different counter values differ, and none is the root key `dct_root` |
| DictStore.Get | backend/data_dict.py:223-228 | without a key argument or an own key `get` raises KeyError; otherwise it returns the stored record, or None when the key is unknown |
| DictStore.Put | backend/data_dict.py:230-238 | a record without a key gets `dct_<counter+1>` and the counter advances; that key is unused; the record is stored under its key, and the store stays valid |
| DictStore.PutThenGet | backend/data_dict.py:223-238 | after `put`, `get` of the returned key returns the record, which carries that key |
| DictElement.SchemaBuilds | backend/data_dict.py:276-292 | the schema's bool and string fields are built without error |
| DictElement.ContentTypeMembers | backend/data_dict.py:13-17 | the public values of `ContentType` are 2, 4, 3, 1, in `dir()` order |
| DictElement.ContTypeBuilds | backend/data_dict.py:277 | `EnumProperty(ContentType)` builds the content-type field |
| DictElement.ContTypeAccepts | backend/data_dict.py:277 | the content-type field admits exactly None and values equal to 1 to 4, bools included |
| DictElement.PutKeepsConsistent | backend/data_dict.py:230-238 | storing a well-shaped record whose children are stored keeps every record well-shaped and every child key stored |
| DictElement.PutKeepsShaped | backend/data_dict.py:230-238 | storing a well-shaped record keeps every record well shaped and stored under its own key |
| DictElement.EmptyIsConsistent | backend/data_dict.py:7-8 | the empty dictionary with counter 0 is consistent |
| DictElement.NewContainer | backend/data_dict.py:275-280 | building a `Container` succeeds exactly when every given field value is admitted, and the instance then holds exactly the four given values, the list one as a `ListValue` of str |
| DictElement.NewContainerFields | backend/data_dict.py:275-280 | a built container is well shaped, reads back each value it was given, and has no attributes |
| DictElement.NewAttribName | backend/data_dict.py:288-292 | building an `AttribName` succeeds exactly when the text is None or a str, and then holds its parent, text and author |
| DictElement.TypeFilter | backend/data_dict.py:308-309 | a content-type filter that is not a list is wrapped into a one-item list; None means no filter |
| DictElement.Passes | backend/data_dict.py:327-332 | a record passes when its `active` equals the filter (if given) and its content type is in the filter list (if given); an attribute record raises AttributeError when a filter reads a field it lacks |
| DictElement.LookupSingle | backend/data_dict.py:322-334 | the key and container are set exactly when the record exists and passes both filters; otherwise both stay None |
| DictElement.DistinctStrings | backend/data_dict.py:337-338 | de-duplication keeps each string key once and drops non-string entries |
| DictElement.Collect | backend/data_dict.py:341-350 | `keys[i]` is the key of `containers[i]`; every returned record passes both filters; every stored key that passes is returned |
| DictElement.LookupMultiple | backend/data_dict.py:336-351 | the multi lookup returns each distinct stored string key that passes the filters, once, paired with its record; a list among the keys raises TypeError |
| DictElement.Lookup | backend/data_dict.py:307-320 | an `ndb.Key` is first turned into `ndb_<kind>_<id>`; a str key then goes to the single lookup, a list to the multi lookup, and anything else raises TypeError |
| DictElement.NdbKeyTextInjective | backend/data_dict.py:311-312 | different ndb keys are turned into different dictionary keys, so the conversion loses nothing |
| DictElement.NdbKeyTextNotMade | backend/data_dict.py:311-312 | a converted ndb key is never a counter key `dct_<n>` nor the root key |
| DictElement.MultipleAgreesWithSingle | backend/data_dict.py:322-351 | a key comes back from the multi lookup exactly when the single lookup with the same filters finds it |
| DictElement.ResolveParent | backend/data_dict.py:384-393 | the parent resolves only to a stored container; a parent with no key raises AttributeError; an `ndb.Key` in its `key` attribute is converted as `lookup` converts it |
| DictElement.AdoptChild | backend/data_dict.py:403-404 | through the inherited `append`, the parent lists the new key once more at the end of its children, becomes active, and is otherwise unchanged |
| DictElement.AttachAttribute | backend/data_dict.py:368 | the root's `attributes` becomes exactly the one attribute key, and nothing else changes |
| DictElement.CreateRoot | backend/data_dict.py:357-375 | root creation never fails; a non-administrator, or an existing root, leaves the store unchanged and puts the element on the root key |
| DictElement.RootContainer | backend/data_dict.py:362 | the first root record is active, of the given type, parentless, childless and without attributes |
| DictElement.RootName | backend/data_dict.py:365 | the root's Name attribute has no key until stored, belongs to the root key and reads "root" |
| DictElement.NextKeyFresh | backend/data_dict.py:230-234 | the key the next keyless put draws is neither stored nor the root key |
| DictElement.BootstrapRoot | backend/data_dict.py:362-369 | the bootstrap advances the counter by one and writes the root, then its Name attribute under the next counter key, then the root again listing that key as its one attribute |
| DictElement.BootstrapRootValid | backend/data_dict.py:362-369 | the bootstrap keeps every record under its own key and the counter ahead of every counter key |
| DictElement.CreateRootKeepsConsistent | backend/data_dict.py:357-375 | root creation keeps the store consistent |
| DictElement.CreateRootBootstraps | backend/data_dict.py:360-369 | an administrator's bootstrap stores an active, parentless, childless root of type ROOT |
| DictElement.CreateRootNamesRoot | backend/data_dict.py:365-368 | the root's one attribute is a Name attribute with text "root" by the administrator, owned by the root |
| DictElement.CreateRootAddsOnlyRoot | backend/data_dict.py:360-369 | apart from the root and its attribute, no record changes |
| DictElement.RootBootstrappedOnce | backend/data_dict.py:358-375 | a second root creation, by anyone, writes nothing and returns the same root |
| DictElement.CreateChild | backend/data_dict.py:384-408 | child creation succeeds exactly when the parent resolves and both the `active` flag and the content type are admitted; a failure is the parent's own error (AttributeError or TypeError) when the parent does not resolve, and TypeError from the container's constructor otherwise; it never raises KeyError and keeps every record well shaped |
| DictElement.LinkChild | backend/data_dict.py:399-405 | storing the new container advances the counter by one and writes it under a fresh key; the parent is adopted and written only when it does not list that key yet; the element ends on the new key |
| DictElement.LinkChildKeepsConsistent | backend/data_dict.py:399-405 | linking a childless container keeps every listed child key stored |
| DictElement.CreateChildIsLink | backend/data_dict.py:397-405 | a successful child create links a well-shaped, keyless, childless container under the resolved parent |
| DictElement.CreateChildKeepsConsistent | backend/data_dict.py:384-405 | a successful child create keeps every listed child key stored |
| DictElement.CreateChildStoresChild | backend/data_dict.py:395-405 | exactly one record is added, under a fresh counter key; no record but the parent's changes, and the element holds the new key and record |
| DictElement.CreateChildFields | backend/data_dict.py:395-400 | the new container points at the parent, has no children or attributes, and has `active` False unless given |
| DictElement.CreateChildListedKeepsParent | backend/data_dict.py:402-405 | a parent that already lists the fresh key is left exactly as it was |
| DictElement.CreateChildUpdatesParent | backend/data_dict.py:402-405 | on a consistent store the fresh key is not listed yet, so the parent's children gain it exactly once, the parent becomes active, and its other fields stay |
| DictElement.Create | backend/data_dict.py:353-408 | without a user nothing happens; a content type equal to ROOT bootstraps, any other creates a child; the store stays consistent |
| NdbModel.KindNameInjective | backend/data_ndb.py:196 | class names identify the classes, so comparing a placeholder with `type(attribute).__name__` compares kinds |
| NdbModel.Put | backend/data_ndb.py:144 | `put` stores the record under its key, adds the key to the query order once, and keeps the datastore valid for an allocated key with consistent links |
| NdbModel.Allocate | backend/data_ndb.py:144 | a new entity gets the next id, and the datastore stays valid |
| NdbModel.Query | backend/data_ndb.py:247 | an ancestor query returns exactly the stored keys of the kind at or below the ancestor, each once |
| NdbModel.Fetch | backend/data_ndb.py:247 | fetching keys yields their entities in order, exactly those, each once |
| NdbLookup.TypeFilter | backend/data_ndb.py:63-64 | a single content type is wrapped into a one-item list; None means no filter |
| NdbLookup.Passes | backend/data_ndb.py:85-90 | a record passes when its `active` equals the filter (Python `==`) and its type is in the list; a type filter on an attribute raises AttributeError |
| NdbLookup.LookupSingle | backend/data_ndb.py:79-92 | key and container are set exactly when the record exists and passes both filters; otherwise key and container stay None |
| NdbLookup.DistinctKeys | backend/data_ndb.py:95-96 | de-duplication keeps each key once and drops non-key entries |
| NdbLookup.Collect | backend/data_ndb.py:99-105 | `keys[i]` is the key of `containers[i]`; the records all pass; every passing key is returned; a missing key raises AttributeError |
| NdbLookup.LookupMultiple | backend/data_ndb.py:94-106 | the multi lookup returns the distinct keys that pass, once each, paired with their records; a successful lookup means every key was stored |
| NdbLookup.Lookup | backend/data_ndb.py:62-77 | a key goes to the single lookup, a list to the multi lookup, anything else raises TypeError |
| NdbLookup.MultipleAgreesWithSingle | backend/data_ndb.py:79-106 | a key comes back from the multi lookup exactly when the single lookup with the same filters finds it |
| NdbLookup.UnfilteredCollectsAll | backend/data_ndb.py:99-105 | with no filter every stored key comes back, paired with its record |
| NdbLookup.UnfilteredLookupReturnsAll | backend/data_ndb.py:94-106 | with no filter the multi lookup returns every distinct key |
| NdbCreate.CreateRoot | backend/data_ndb.py:113-130 | the element always ends on the root key; a non-administrator, or an existing root, leaves the datastore unchanged; the datastore stays valid |
| NdbCreate.BootstrapStoresRoot | backend/data_ndb.py:115-124 | the bootstrap stores an active, parentless, childless root whose `attributes` is exactly one fresh Name attribute with text "root" by the administrator, and changes nothing else |
| NdbCreate.BootstrapOnce | backend/data_ndb.py:113-130 | a second root creation, by anyone, writes nothing and returns the same element |
| NdbCreate.ActiveFlag | backend/data_ndb.py:140-141 | `active` None becomes False, a bool is kept, and anything else fails validation |
| NdbCreate.ParentKeyOf | backend/data_ndb.py:132-139 | the parent is a key, or an element with a key; anything else raises TypeError |
| NdbCreate.CreateChild | backend/data_ndb.py:131-152 | child creation succeeds exactly when the parent is a stored container, `active` is valid and a type is given; the errors come in the code's order: TypeError for a parent that is neither a key nor a keyed element, AttributeError for a parent that is not stored, BadValueError for a non-bool `active`, BadValueError for a missing content type, AttributeError for a parent that is an attribute; on success it stores the child and the element holds it |
| NdbCreate.ChildCreateLinks | backend/data_ndb.py:143-148 | exactly two records change: the fresh child (parent set, no children, `active` defaulting to False) and the parent, whose children gain the key once; the parent is not activated |
| NdbCreate.ChildCreateAppends | backend/data_ndb.py:146-148 | the parent's children are the old ones plus the new key |
| NdbCreate.Create | backend/data_ndb.py:108-152 | without a user nothing is written and the element stays blank; ROOT goes to root creation, other types to child creation |
| NdbCreate.CreateChildren | backend/data_ndb.py:131-148 | n successive child creations under one parent append n distinct fresh keys to its children, in order, and keep the old ones |
| AttribCache.InsertStepAsWritten | backend/data_ndb.py:182-198 | one pass of the update loop keeps the entry's position; it raises UnboundLocalError exactly at an empty list when `match` was never bound; a non-empty list gains the attribute exactly when its last slot holds the kind, an empty one exactly when `match` was left True |
| AttribCache.InsertLoopAsWrittenLastSlot | backend/data_ndb.py:184-193 | over the whole loop, each non-empty list gains the attribute exactly when its last slot holds the kind |
| AttribCache.InsertLoopAsWrittenShape | backend/data_ndb.py:182-199 | the loop keeps every entry in its position, each unchanged or grown by the new attribute at its end |
| AttribCache.InsertLoopAsWrittenFound | backend/data_ndb.py:182-199 | `attribFound` ends True exactly when some entry stands for the attribute's kind |
| AttribCache.CacheInsertAsWritten | backend/data_ndb.py:179-201 | a None cache stays None; otherwise every entry keeps its position and stays or gains the attribute, a non-empty list gaining it exactly when its last slot holds the kind, and the kind name is appended exactly when no entry stands for the kind |
| AttribCache.CacheInsertAsWrittenLosesEntity | backend/data_ndb.py:184-193 | a list `[a, None]` holding the kind is neither extended nor followed by a placeholder, so the cache does not record the new attribute |
| AttribCache.CacheInsertAsWrittenUnbound | backend/data_ndb.py:185-192 | a cache starting with an empty list raises UnboundLocalError |
| AttribCache.InsertInto | backend/data_ndb.py:183-194 | an entry changes exactly when it is a list holding the kind, and then gains the attribute at its end |
| AttribCache.CacheInsert | backend/data_ndb.py:179-201 | the intended update: positions kept, the cache grows by at most one entry (the kind's placeholder, only when no entry stands for the kind), and every list holding the kind gains the attribute |
| AttribCache.CacheInsertRecords | backend/data_ndb.py:179-201 | after the intended update the cache records the new attribute |
| AttribCache.DistinctKinds | backend/data_ndb.py:219 | `list(set(kinds))` holds each attribute key's kind exactly once |
| AttribCache.PlaceholdersCover | backend/data_ndb.py:219 | there is one placeholder for each kind among the container's attribute keys |
| AttribCache.TypeEntry | backend/data_ndb.py:222-223 | a populated list becomes the class of its first slot; an empty list raises IndexError; other entries stay |
| AttribCache.AppendNew | backend/data_ndb.py:220-225 | the conversion keeps the accumulated prefix and adds no duplicate; an empty populated list raises IndexError |
| AttribCache.AppendNewMember | backend/data_ndb.py:220-225 | an entry is in the result exactly when it was accumulated already or some old entry converts to it |
| AttribCache.AppendNewKeeps | backend/data_ndb.py:222-225 | every old entry that is not a populated list survives the conversion |
| AttribCache.AppendNewNoLists | backend/data_ndb.py:222-225 | populated lists are converted to class entries, so none is left |
| AttribCache.AtribTypes | backend/data_ndb.py:217-226 | without a container `getAtribTypes` raises AttributeError; otherwise the placeholders for the attribute kinds come first, then the old non-list entries; the result holds exactly the placeholders and the converted old entries and nothing else, with no duplicates and no populated list |
| AttribCache.AtribTypesIdempotent | backend/data_ndb.py:217-226 | `getAtribTypes` applied to its own result changes nothing |
| AttribCache.FirstPresent | backend/data_ndb.py:236-241 | the first fetched instance of a list, or none when every slot is None |
| AttribCache.Instances | backend/data_ndb.py:247 | the fetched instances are exactly the stored entities of the kind owned by the key, each once |
| AttribCache.Deep | backend/data_ndb.py:229-251 | `getAttribDeep` returns all instances of the kind and puts them last in the cache; before them stand exactly the carried-over old entries, `DeepKept`, in their old order; without a key the query raises BadRequestError after the cache was built; nothing is written |
| AttribCache.DeepKept | backend/data_ndb.py:233-245 | the entries carried over are exactly the old entries that stand for other kinds; when every entry does, all of them are carried over unchanged |
| AttribCache.DeepKeptSplit | backend/data_ndb.py:234-245 | carrying over decides each entry on its own and keeps order and multiplicity: an entry kept stays after the kept entries that stood before it |
| AttribCache.DeepReplacesKind | backend/data_ndb.py:233-250 | afterwards no placeholder of the kind remains, and when every old entry stands for another kind the cache is the old one plus the new list |
| AttribCache.ActiveInstances | backend/data_ndb.py:279 | the active instances of the kind under the key, in query order |
| AttribCache.ShallowEntry | backend/data_ndb.py:278-280 | the shallow entry is the first active instance followed by None, one slot per instance; with no active instance it is n-1 Nones |
| AttribCache.ShallowEntryExactlyOne | backend/data_ndb.py:278-280 | with n instances and exactly one active, the entry is that instance followed by n-1 Nones |
| AttribCache.ShallowKept | backend/data_ndb.py:259-276 | the entries carried over are exactly the old entries that stand for other kinds; when every entry does, all of them are carried over unchanged |
| AttribCache.ShallowKeptSplit | backend/data_ndb.py:260-276 | carrying over decides each entry on its own and keeps order and multiplicity: an entry kept stays after the kept entries that stood before it |
| AttribCache.ShallowCache | backend/data_ndb.py:259-282 | the rebuilt cache is the carried-over entries, `ShallowKept`, in their old order, followed by the kind's shallow entry; when every old entry stands for another kind it is the old cache with the shallow entry appended, so existing entries do not move |
| AttribCache.Shallow | backend/data_ndb.py:254-283 | a kind already fully fetched returns None with the cache unchanged; otherwise the cache becomes `ShallowCache`: the carried-over entries in order, then the kind's shallow entry; when every old entry stands for another kind the old cache keeps its length and positions and gains the shallow entry at the end; the returned entity is the first active instance in query order, `attributes[0]`, which is also the first slot of the new last cache entry; with no active instance IndexError is raised |
| AttribCache.ShallowOne | backend/data_ndb.py:290-298 | one entry: a populated list passes through, a placeholder becomes its kind's shallow entry, a class entry raises KeyError, and a placeholder without a key raises BadRequestError |
| AttribCache.ShallowAllEntries | backend/data_ndb.py:289-298 | the result is entry-by-entry what ShallowOne gives, same length, and it fails exactly when some entry fails |
| AttribCache.ShallowAllEntriesShape | backend/data_ndb.py:289-298 | every placeholder becomes its kind's shallow entry and every list passes through unchanged; an error happens exactly at a class entry or, without a key, at a placeholder |
| AttribCache.ShallowAll | backend/data_ndb.py:286-299 | on success the cache keeps its length, populated lists pass through unchanged at their positions and each placeholder becomes its kind's shallow entry; on an error (KeyError at a class entry, BadRequestError at a placeholder without a key) the cache stays as `getAtribTypes` left it; nothing is written |
| AttribCache.ShallowAllIdempotent | backend/data_ndb.py:286-299 | a second `getAttribShallowAll` changes nothing |
| NdbAttrib.FindOwn | backend/data_ndb.py:159 | `fetch(1)` finds the user's first attribute of the kind under the container, in query order, and finds none exactly when the user has none |
| NdbAttrib.CopyAttrib | backend/data_ndb.py:308-314 | the copy has the same class and properties and is owned by the given parent |
| NdbAttrib.Save | backend/data_ndb.py:158-168 | an existing attribute of the user's is overwritten under its key, adding no key; otherwise a copy authored by the user is stored under a fresh key owned by the container |
| NdbAttrib.Link | backend/data_ndb.py:171-176 | the container's `attributes` gains the key exactly when the key is absent, and nothing else changes |
| NdbAttrib.StoreExisting | backend/data_ndb.py:161-164 | updating keeps the query for the kind unchanged and writes only the attribute and the container |
| NdbAttrib.StoreNew | backend/data_ndb.py:165-176 | a new attribute adds exactly its key to the query for the kind and to the container's `attributes`, with no duplicate |
| NdbAttrib.Store | backend/data_ndb.py:159-172 | after the put and the link, the attribute is stored under its key and listed in its container's `attributes`, and the datastore stays valid |
| NdbAttrib.OwnedHeadAfterUpdate | backend/data_ndb.py:159-164 | overwriting the user's attribute of the kind with one still authored by them keeps it the first of theirs |
| NdbAttrib.OwnedHeadAfterAdd | backend/data_ndb.py:165-169 | a user without an attribute of the kind owns exactly the new one afterwards |
| NdbAttrib.AddAttribAsWritten | backend/data_ndb.py:155-202 | without a user the argument comes back and nothing is written; without a key BadRequestError; a key that names no container raises AttributeError; with a container the call succeeds exactly when the as-written cache update does, and then returns the stored attribute, keeps the store's writes and holds the updated cache; when the cache update raises, that error is returned and the datastore is rolled back; in both cases `self.container` is already the re-read container when the key was newly linked into it; the datastore stays valid |
| NdbAttrib.AddAttribAsWrittenUnboundRollsBack | backend/data_ndb.py:168-192 | with a cache `[[]]` the call raises UnboundLocalError after the writes; the datastore is rolled back and the cache is unchanged, but the element's container is already the linked one |
| NdbAttrib.AddAttrib | backend/data_ndb.py:155-202 | the intended upsert: an error happens exactly without a key or container; on success the saved attribute is stored, authored by the user, owned by the container and linked into its `attributes`, and the cache holds it |
| NdbAttrib.AddAttribFindsOwn | backend/data_ndb.py:159-168 | after an upsert the user's attribute of the kind is the one just saved |
| NdbAttrib.AddAttribSameAuthorUpdates | backend/data_ndb.py:161-168 | the same author updates in place: the count of the kind stays and the text is the latest call's |
| NdbAttrib.AddAttribNewAuthorAdds | backend/data_ndb.py:165-176 | a new author adds one fresh attribute owned by the container, and `attributes` grows by exactly that key with no duplicate |
| NdbAttrib.AddAttribTwiceKeepsCount | backend/data_ndb.py:159-168 | two upserts by the same user leave one attribute of the kind: the second adds no key |
| NdbAttrib.AddAttribAsWrittenNoCache | backend/data_ndb.py:179 | without a cache the update tail does nothing and the call succeeds |
| NdbAttrib.StoreDisowns | backend/data_ndb.py:161-164 | overwriting the user's only attribute with a record by someone else leaves the user without one |
| NdbAttrib.AddAttribAsWrittenDisowns | backend/data_ndb.py:161-164 | as written, updating with an argument whose author is unset clears the author, and the user no longer owns an attribute of the kind |
| NdbAttrib.AddAttribAsWrittenDuplicates | backend/data_ndb.py:159-168 | as written, the next call by that user then adds a second attribute of the kind |
| NdbAttrib.WithActive | backend/data_ndb.py:210-213 | only the `active` property changes |
| NdbAttrib.PutActive | backend/data_ndb.py:209-214 | putting the siblings keeps the key set, the query order and the allocator, and the datastore stays valid |
| NdbAttrib.PutActiveRecords | backend/data_ndb.py:207-214 | each fetched sibling is stored with `active` set exactly when its key is k; every other record stays |
| NdbAttrib.PutWithActiveValid | backend/data_ndb.py:209-214 | rewriting one stored record's `active` flag keeps the datastore valid |
| NdbAttrib.SetAttribActive | backend/data_ndb.py:205-214 | among the container's instances of k's kind, exactly k is active afterwards; every other record is untouched; a missing record raises AttributeError and a missing key BadRequestError |
| NdbAttrib.SetActiveThenShallow | backend/data_ndb.py:205-214 | after `setAttribActive(k)` the kind's query is unchanged and its shallow entry is k followed by None for each other instance |

## Left out

- The Google App Engine datastore is not modelled; a map from keys to records stands in for it. The `users` API and the protorpc enumerations are left out too. The current user and the administrator flag are parameters.
- Transaction mechanics and the five-entity-group switch in `lookup` are left out, because they affect atomicity, not results (`backend/data_ndb.py:69-74`).
- `created` and `modified` timestamps are left out, because the store sets them and no operation reads them.
- NdbModel.Query: the limits `fetch(1)` on the active query, `fetch(100)`, `count(100)` and `fetch(1000)` are not modelled; the query is unbounded.
- NdbModel.Query: the query's order is the order the keys were first stored in. The datastore's own order is not modelled.
- NdbLookup.Passes: the `active` filter is compared with Python `==` on bools and ints. Comparisons with other Python types are not modelled.
- NdbLookup.Passes: the content-type filter is a list of enumeration members only.
- DictElement.DistinctStrings: `list(set(keys))` has no defined order, so the first-occurrence order stands in for it. The same holds for NdbLookup.DistinctKeys and AttribCache.DistinctKinds.
- DictElement.CreateChild: a failed constructor's half-built in-memory object is not modelled, because nothing observes it.
- In the in-memory `Element.addAttrib` (`backend/data_dict.py:410-440`), `existingAttribs` is undefined, so the method raises NameError whenever a user is present. It is not modelled.
- The `DataStore.query`, `filter`, `fetch` and `count` stubs are left out, because they do nothing (`backend/data_dict.py:258-272`).
- `DataStore.__setitem__` and `__getitem__` are left out, because nothing calls them.
- The descriptor bookkeeping (`instanceIndexed`, `values`) is left out. In its place, one map per instance goes from field name to value.
- The repeated default shared between instances (`backend/data_dict.py:67`) is left out: the model gives each instance its own copy.
- `StringPropertySingle` keeps its value on the descriptor, so all instances share it (`backend/data_dict.py:188-203`). This is not modelled: the value is per instance.
- `StringPropertySingle.__getitem__` and `__setitem__` are left out, because they index into a str.
- `StringProperty2` is left out, because nothing uses it.
- `clear()`, `getMenuChildren`, `getMenuParent`, logging and the test runner are left out, because they hold no logic the model needs.
- The nested list that `ListValue.__setitem__` stores is carried as a list value, with no further structure.
- Slice assignment with a step is not modelled, because the code never uses one.
- Properties.SetItemAsWritten: models `ListValue.__setitem__` when it is called: an index, or a slice object such as `lv[i:j:]`. Python 2 sends a plain slice statement `lv[i:j] = v` to the inherited `list.__setslice__` instead, which Properties.SetSliceAsWritten models.
- StringProps.RepeatedSetItem: models `StringPropertyRepeated.__setitem__` when it is called. A plain slice statement on the string list also goes to the inherited `list.__setslice__` unchecked, exactly as Properties.SetSliceAsWritten shows for `ListValue`; it has no member of its own.
- Python 2 `unicode` text is not told apart from `str`. The code's `type(x) is StringType` tests reject unicode values, and the model has only one string type.
- NdbAttrib.AddAttribAsWritten: on the new-attribute path the code sets `authur` on the caller's own argument object before copying it (`backend/data_ndb.py:166`), even when the call then fails. The model passes the argument as a value, so this change to the caller's object is not returned. A caller that passes the same object again sends that author to `populate` on the update path, which avoids the duplicate in the third Findings row; that row uses fresh arguments.
- DictElement.Lookup: an `ndb.Key` is modelled with a kind and a numeric id. Keys with a string name, or with an ancestor path, are not modelled.

## Findings

| source | as written | input that shows it | evidently intended | confidence | as-written member | corrected member |
|---|---|---|---|---|---|---|
| backend/data_ndb.py:184-193 | `match` is reset at every slot, so a populated list gets the new attribute only when its last slot holds that kind. Such a list still counts as found, so no placeholder is added either | a cache `[[a, None]]` where `a` has the new attribute's kind: the cache stays `[[a, None]]` | every list holding the kind gains the new attribute | medium; not executed | AttribCache.CacheInsertAsWrittenLosesEntity | AttribCache.CacheInsert |
| backend/data_ndb.py:185-192 | `match` is bound only inside the inner loop, so an empty list met before any non-empty one reaches `if match:` unbound. The UnboundLocalError rolls back the attribute's write | a cache `[[]]` with any new attribute | the update never raises | medium; not executed | AttribCache.CacheInsertAsWrittenUnbound | AttribCache.CacheInsert |
| backend/data_ndb.py:161-164 | `populate(**attribute.to_dict())` copies the argument's `authur` over the existing one, and that value is normally unset. The user then no longer owns the attribute, and their next call creates a second one | a user with one Name attribute calls `addAttrib` twice with fresh `AttribName(text=...)` arguments: the count of Name attributes rises by one | an update keeps the existing author, so the same user always updates the same attribute | medium; not executed | NdbAttrib.AddAttribAsWrittenDuplicates | NdbAttrib.AddAttribTwiceKeepsCount |
| backend/data_dict.py:101-102 | the list branch applies to integer indices as well as slices, so an index assignment can store a list as one item | `lv = ListValue(str, ["a"]); lv[0] = ["b"]` gives `[["b"]]` | an index takes one value of the element type; only a slice takes a list | medium; not executed | Properties.SetItemAsWrittenNestsList | Properties.SetItem |
| backend/data_dict.py:91-104 | `ListValue` overrides `__setitem__` but not `__setslice__`, so in Python 2 a plain slice statement bypasses the check. The same holds for `StringPropertyRepeated` (`backend/data_dict.py:180-184`) | `lv = ListValue(str, ["a"]); lv[0:1] = [1]` gives `[1]` | a slice assignment is checked like `__setitem__` | medium; not executed | Properties.SetSliceAsWrittenBreaksType | Properties.SetItem |
| backend/data_dict.py:91-104 | `ListValue` does not override `append`, so appended values are not checked | `ListValue(str, ["a"]).append(1)` gives `["a", 1]` | `append` checks the element type like `__setitem__` | medium; not executed | Properties.AppendAsWrittenBreaksType | Properties.Append |
