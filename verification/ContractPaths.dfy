/** What stands where in a contract after `strip_internal_keys` (`healer/applier.py`) and
`normalize_contract` (`forge/normalize.py`), and which contracts can be normalised at all. */
module ContractPaths {
  import opened Collections
  import opened ContractTree
  import opened Normalizer

  datatype Move = Under(key: Key) | Item(i: nat)

  function Below(y: Yaml, m: Move): Option<Yaml> {
    match m
    case Under(key) => if y.Mapping? then Get(y.entries, key) else None
    case Item(i) => if y.List? && i < |y.items| then Some(y.items[i]) else None
  }

  /** What a path leads to. */
  function Find(y: Yaml, path: seq<Move>): Option<Yaml>
    decreases |path|
  {
    if path == [] then Some(y)
    else
      var below := Below(y, path[0]);
      if below.None? then None else Find(below.value, path[1..])
  }

  // ----- strip_internal_keys -----

  predicate PublicMove(m: Move) {
    m.Under? ==> !Internal(m.key)
  }

  predicate PublicPath(path: seq<Move>) {
    forall i :: 0 <= i < |path| ==> PublicMove(path[i])
  }

  lemma {:induction false} StripEntriesGet(entries: seq<Entry>, k: Key)
    ensures Get(StripEntries(entries), k)
      == if Internal(k) || Get(entries, k).None? then None else Some(Strip(Get(entries, k).value))
  {
    if entries != [] {
      StripEntriesGet(entries[1..], k);
      var first, rest := entries[0], StripEntries(entries[1..]);
      if Internal(first.key) {
        assert StripEntries(entries) == rest;
      } else {
        assert StripEntries(entries) == [Entry(first.key, Strip(first.value))] + rest;
        assert ([Entry(first.key, Strip(first.value))] + rest)[1..] == rest;
      }
    }
  }

  lemma {:induction false} StripItemsAt(items: seq<Yaml>, i: nat)
    ensures |StripItems(items)| == |items|
    ensures i < |items| ==> StripItems(items)[i] == Strip(items[i])
  {
    if items != [] { StripItemsAt(items[1..], if i > 0 then i - 1 else 0); }
  }

  lemma StripBelow(y: Yaml, m: Move)
    ensures Below(Strip(y), m)
      == if !PublicMove(m) || Below(y, m).None? then None else Some(Strip(Below(y, m).value))
  {
    hide StripEntries, StripItems, Get;
    if y.Mapping? && m.Under? { StripEntriesGet(y.entries, m.key); }
    if y.List? && m.Item? { StripItemsAt(y.items, m.i); }
  }

  /** Stripping takes away what stands under an internal key, at any depth, and nothing else: a
  path through public keys leads to what it led to, itself stripped. */
  lemma {:induction false} StripFinds(y: Yaml, path: seq<Move>)
    ensures Find(Strip(y), path)
      == if !PublicPath(path) || Find(y, path).None? then None else Some(Strip(Find(y, path).value))
    decreases |path|
  {
    if path != [] {
      StripBelow(y, path[0]);
      assert PublicPath(path) <==> PublicMove(path[0]) && PublicPath(path[1..]) by {
        assert path == [path[0]] + path[1..];
      }
      if Below(y, path[0]).Some? { StripFinds(Below(y, path[0]).value, path[1..]); }
    }
  }

  // ----- normalize_contract -----

  const METADATA := Under(Word("metadata"))
  const REQUIRES := Under(Word("requires"))
  const SPEC := Under(Word("spec"))
  const FIELDS := Under(Word("fields"))
  const MIXINS := Under(Word("mixins"))
  const REFERENCES := Under(Word("references"))

  lemma MappedBelow(v: Yaml, f: Rewrite, k: Key)
    requires v.Mapping? && MappingValue(v, f).Some?
    ensures var was, now := Below(v, Under(k)), Below(MappingValue(v, f).value, Under(k));
      (now.None? <==> was.None?) && (was.Some? ==> now == f(k, was.value))
  {
    GetMapped(v.entries, f, k);
  }

  lemma {:induction false} MapItemsAt(items: seq<Yaml>, f: Yaml -> Option<Yaml>, i: nat)
    requires MapItems(items, f).Some?
    ensures |MapItems(items, f).value| == |items|
    ensures i < |items| ==> f(items[i]) == Some(MapItems(items, f).value[i])
  {
    if items != [] { MapItemsAt(items[..|items| - 1], f, i); }
  }

  lemma ListedBelow(v: Yaml, f: Yaml -> Option<Yaml>, i: nat)
    requires v.List? && i < |v.items| && ListValue(v, f).Some?
    ensures f(v.items[i]).Some? && Below(ListValue(v, f).value, Item(i)) == f(v.items[i])
  {
    MapItemsAt(v.items, f, i);
  }

  lemma SomethingBelow(v: Yaml, k: Key)
    requires Below(v, Under(k)).Some?
    ensures v.Mapping? && v.Truthy()
  {
  }

  /** One key down a contract. */
  lemma ContractBelow(c: Yaml, k: Key)
    requires NormalizeContract(c).Some?
    ensures var was, now := Below(c, Under(k)), Below(NormalizeContract(c).value, Under(k));
      (now.None? <==> was.None?) && (was.Some? ==> now == ContractEntry(DomainOf(c.entries))(k, was.value))
  {
    MappedBelow(c, ContractEntry(DomainOf(c.entries)), k);
  }

  lemma Find1(y: Yaml, a: Move)
    ensures Find(y, [a]) == Below(y, a)
  {
    hide Below;
    assert [a][1..] == [];
  }

  lemma Find2(y: Yaml, a: Move, b: Move)
    ensures Find(y, [a, b]) == if Below(y, a).None? then None else Below(Below(y, a).value, b)
  {
    hide Below;
    assert [a, b][1..] == [b] && [b][1..] == [];
    if Below(y, a).Some? { Find1(Below(y, a).value, b); }
  }

  /** The domain that references are completed with is the normalised one of the metadata. */
  lemma DomainIs(c: Yaml)
    requires c.Mapping?
    ensures var stated := Find(c, [METADATA, Under(Word("domain"))]);
      DomainOf(c.entries) == if stated.Some? && stated.value.Text? then NormalizeName(stated.value.text) else ""
  {
    hide NormalizeName, Get;
    Find2(c, METADATA, Under(Word("domain")));
  }

  /** The name and the domain are normalised; the rest of the metadata stays. */
  lemma MetadataNormalized(c: Yaml, k: Key)
    requires NormalizeContract(c).Some?
    ensures var was, now := Find(c, [METADATA, Under(k)]), Find(NormalizeContract(c).value, [METADATA, Under(k)]);
      if was.Some? && (k == Word("name") || k == Word("domain")) then
        was.value.Text? && now == Some(Text(NormalizeName(was.value.text)))
      else now == was
  {
    Find2(c, METADATA, Under(k));
    Find2(NormalizeContract(c).value, METADATA, Under(k));
    ContractBelow(c, Word("metadata"));
    assert c.Mapping?;
    hide NormalizeContract, Below, DomainOf;
    var below := Below(c, METADATA);
    if below.Some? && below.value.Mapping? && below.value.Truthy() {
      MappedBelow(below.value, MetadataEntry, k);
    }
  }

  lemma DifferentKeys()
    ensures Word("metadata") != Word("requires") && Word("spec") != Word("metadata") && Word("spec") != Word("requires")
    ensures Word("fields") != Word("state_machine") && Word("fields") != Word("entity") && Word("fields") != Word("mixins")
    ensures Word("mixins") != Word("state_machine") && Word("mixins") != Word("entity")
    ensures Word("entity") != Word("graph_edge") && Word("entity") != Word("state_machine")
  {
    assert "metadata"[0] == 'm' && "requires"[0] == 'r' && "fields"[0] == 'f' && "entity"[0] == 'e' && "mixins"[0] == 'm';
    assert |"spec"| == 4 && |"metadata"| == |"requires"| == 8 && |"state_machine"| == 13 && |"mixins"| == 6;
    assert |"graph_edge"| == 10;
  }

  // What the rewriting of a key comes to where something stands below it.

  lemma RequiresBelow(domain: string, v: Yaml, i: nat)
    requires v.List? && i < |v.items| && ContractEntry(domain)(Word("requires"), v).Some?
    ensures Below(ContractEntry(domain)(Word("requires"), v).value, Item(i)) == RequiresValue(v.items[i], domain)
    ensures v.items[i].Text?
  {
    hide NormalizeRequiresIn;
    DifferentKeys();
    assert ContractEntry(domain)(Word("requires"), v) == ListValue(v, x => RequiresValue(x, domain));
    ListedBelow(v, x => RequiresValue(x, domain), i);
  }

  lemma MixinBelow(domain: string, v: Yaml, i: nat)
    requires v.List? && i < |v.items| && SpecEntry(domain)(Word("mixins"), v).Some?
    ensures Below(SpecEntry(domain)(Word("mixins"), v).value, Item(i)) == RefValue(v.items[i], "mixin", domain)
    ensures v.items[i].Text?
  {
    hide NormalizeFqnIn;
    DifferentKeys();
    assert SpecEntry(domain)(Word("mixins"), v) == ListValue(v, x => RefValue(x, "mixin", domain));
    ListedBelow(v, x => RefValue(x, "mixin", domain), i);
  }

  lemma SpecIs(domain: string, v: Yaml)
    requires v.Mapping? && v.Truthy()
    ensures ContractEntry(domain)(Word("spec"), v) == MappingValue(v, SpecEntry(domain))
  {
    DifferentKeys();
    assert ContractEntry(domain)(Word("spec"), v) == OrEmpty(v, SpecEntry(domain));
  }

  lemma FieldsAre(domain: string, v: Yaml)
    requires v.Mapping? && v.Truthy()
    ensures SpecEntry(domain)(Word("fields"), v) == MappingValue(v, FieldsEntry(domain))
  {
    DifferentKeys();
    assert SpecEntry(domain)(Word("fields"), v) == OrEmpty(v, FieldsEntry(domain));
  }

  lemma SpecIsElse(domain: string, k: Key, v: Yaml)
    requires SpecEntry(domain)(k, v).Some? && k != Word("fields") && k != Word("mixins")
    ensures SpecEntry(domain)(k, v)
      == if k == Word("state_machine") then RefValue(v, "workflow", domain)
         else if k == Word("entity") then RefValue(v, "entity", domain) else Some(v)
    ensures k == Word("state_machine") || k == Word("entity") ==> v.Text?
  {
    hide MappingValue, ListValue, FieldsEntry, NormalizeFqnIn;
  }

  /** Every entry of `requires` becomes a fully qualified name of the kind it is read as. */
  lemma RequiresNormalized(c: Yaml, i: nat)
    requires NormalizeContract(c).Some? && Find(c, [REQUIRES, Item(i)]).Some?
    ensures var was := Find(c, [REQUIRES, Item(i)]).value;
      was.Text? && Find(NormalizeContract(c).value, [REQUIRES, Item(i)])
        == Some(Text(NormalizeFqnIn(was.text, InferredKind(was.text), DomainOf(c.entries))))
  {
    assert c.Mapping?;
    hide NormalizeContract, Find, DomainOf, ContractEntry, NormalizeFqnIn, InferredKind;
    Find2(c, REQUIRES, Item(i));
    Find2(NormalizeContract(c).value, REQUIRES, Item(i));
    ContractBelow(c, Word("requires"));
    RequiresBelow(DomainOf(c.entries), Below(c, REQUIRES).value, i);
  }

  lemma SpecBelow(c: Yaml, k: Key)
    requires NormalizeContract(c).Some? && Find(c, [SPEC, Under(k)]).Some?
    ensures SpecEntry(DomainOf(c.entries))(k, Find(c, [SPEC, Under(k)]).value).Some?
    ensures Find(NormalizeContract(c).value, [SPEC, Under(k)])
      == SpecEntry(DomainOf(c.entries))(k, Find(c, [SPEC, Under(k)]).value)
  {
    assert c.Mapping?;
    hide NormalizeContract, Find, DomainOf, ContractEntry, SpecEntry, MappingValue, Below;
    var domain := DomainOf(c.entries);
    Find2(c, SPEC, Under(k));
    Find2(NormalizeContract(c).value, SPEC, Under(k));
    ContractBelow(c, Word("spec"));
    var spec := Below(c, SPEC).value;
    SomethingBelow(spec, k);
    SpecIs(domain, spec);
    MappedBelow(spec, SpecEntry(domain), k);
  }

  /** The state machine becomes a workflow's name, the entity an entity's; what stands under any
  key but these, `mixins` and `fields` stays. */
  lemma SpecNormalized(c: Yaml, k: Key)
    requires NormalizeContract(c).Some? && Find(c, [SPEC, Under(k)]).Some?
    requires k != Word("fields") && k != Word("mixins")
    ensures var was, now := Find(c, [SPEC, Under(k)]).value, Find(NormalizeContract(c).value, [SPEC, Under(k)]);
      if k == Word("state_machine") || k == Word("entity") then
        var kind := if k == Word("entity") then "entity" else "workflow";
        was.Text? && now == Some(Text(NormalizeFqnIn(was.text, kind, DomainOf(c.entries))))
      else now == Some(was)
  {
    assert c.Mapping?;
    hide NormalizeContract, Find, DomainOf, SpecEntry, NormalizeFqnIn;
    SpecBelow(c, k);
    SpecIsElse(DomainOf(c.entries), k, Find(c, [SPEC, Under(k)]).value);
  }

  /** Every mixin becomes a mixin's name. */
  lemma MixinsNormalized(c: Yaml, i: nat)
    requires NormalizeContract(c).Some? && Find(c, [SPEC, MIXINS, Item(i)]).Some?
    ensures var was := Find(c, [SPEC, MIXINS, Item(i)]).value;
      was.Text? && Find(NormalizeContract(c).value, [SPEC, MIXINS, Item(i)])
        == Some(Text(NormalizeFqnIn(was.text, "mixin", DomainOf(c.entries))))
  {
    assert c.Mapping?;
    hide NormalizeContract, Find, DomainOf, SpecEntry, NormalizeFqnIn;
    Find3(c, SPEC, MIXINS, Item(i));
    Find3(NormalizeContract(c).value, SPEC, MIXINS, Item(i));
    SpecBelow(c, Word("mixins"));
    MixinBelow(DomainOf(c.entries), Find(c, [SPEC, MIXINS]).value, i);
  }

  lemma Find3(y: Yaml, a: Move, b: Move, m: Move)
    ensures Find(y, [a, b, m]) == if Find(y, [a, b]).None? then None else Below(Find(y, [a, b]).value, m)
  {
    hide Below;
    assert [a, b, m][1..] == [b, m];
    Find2(y, a, b);
    if Below(y, a).Some? { Find2(Below(y, a).value, b, m); }
  }

  lemma FieldBelow(c: Yaml, name: Key)
    requires NormalizeContract(c).Some? && Find(c, [SPEC, FIELDS, Under(name)]).Some?
    ensures Find(NormalizeContract(c).value, [SPEC, FIELDS, Under(name)]).Some?
    ensures Find(NormalizeContract(c).value, [SPEC, FIELDS, Under(name)])
      == FieldsEntry(DomainOf(c.entries))(name, Find(c, [SPEC, FIELDS, Under(name)]).value)
  {
    assert c.Mapping?;
    hide NormalizeContract, Find, DomainOf, SpecEntry, FieldsEntry, MappingValue, Below;
    var domain := DomainOf(c.entries);
    Find3(c, SPEC, FIELDS, Under(name));
    Find3(NormalizeContract(c).value, SPEC, FIELDS, Under(name));
    SpecBelow(c, Word("fields"));
    var fields := Find(c, [SPEC, FIELDS]).value;
    SomethingBelow(fields, name);
    FieldsAre(domain, fields);
    MappedBelow(fields, FieldsEntry(domain), name);
  }

  /** Under a field, nothing changes but what stands under `references`. */
  lemma FieldNormalized(c: Yaml, name: Key, k: Key)
    requires NormalizeContract(c).Some? && Find(c, [SPEC, FIELDS, Under(name)]).Some?
    ensures Find(NormalizeContract(c).value, [SPEC, FIELDS, Under(name)]).Some?
    ensures var was := Find(c, [SPEC, FIELDS, Under(name)]).value;
      var now := Find(NormalizeContract(c).value, [SPEC, FIELDS, Under(name)]).value;
      && (!was.Mapping? ==> now == was)
      && (k != Word("references") ==> Below(now, Under(k)) == Below(was, Under(k)))
  {
    assert c.Mapping?;
    hide NormalizeContract, Find, DomainOf, Below, MapEntries;
    FieldBelow(c, name);
    var was := Find(c, [SPEC, FIELDS, Under(name)]).value;
    if was.Mapping? { MappedBelow(was, FieldEntry(DomainOf(c.entries)), k); }
  }

  /** What stands under `references` of a field, before and after. */
  lemma ReferencesBelow(domain: string, name: Key, field: Yaml, k: Key)
    requires FieldsEntry(domain)(name, field).Some? && Find(field, [REFERENCES, Under(k)]).Some?
    ensures ReferenceEntry(domain)(k, Find(field, [REFERENCES, Under(k)]).value).Some?
    ensures Find(FieldsEntry(domain)(name, field).value, [REFERENCES, Under(k)])
      == ReferenceEntry(domain)(k, Find(field, [REFERENCES, Under(k)]).value)
  {
    var after := FieldsEntry(domain)(name, field).value;
    Find2(field, REFERENCES, Under(k));
    Find2(after, REFERENCES, Under(k));
    SomethingBelow(field, Word("references"));
    hide Find, Below, ReferenceEntry, MapEntries;
    MappedBelow(field, FieldEntry(domain), Word("references"));
    var references := Below(field, REFERENCES).value;
    SomethingBelow(references, k);
    hide MappingValue;
    MappedBelow(references, ReferenceEntry(domain), k);
  }

  /** A field's target becomes an entity's name, its graph edge a normalised edge; what else stands
  under `references` stays. */
  lemma ReferenceNormalized(c: Yaml, name: Key, k: Key)
    requires NormalizeContract(c).Some? && Find(c, [SPEC, FIELDS, Under(name)]).Some?
    requires Find(Find(c, [SPEC, FIELDS, Under(name)]).value, [REFERENCES, Under(k)]).Some?
    ensures Find(NormalizeContract(c).value, [SPEC, FIELDS, Under(name)]).Some?
    ensures var was := Find(Find(c, [SPEC, FIELDS, Under(name)]).value, [REFERENCES, Under(k)]).value;
      var now := Find(Find(NormalizeContract(c).value, [SPEC, FIELDS, Under(name)]).value, [REFERENCES, Under(k)]);
      if k == Word("entity") then
        was.Text? && now == Some(Text(NormalizeFqnIn(was.text, "entity", DomainOf(c.entries))))
      else if k == Word("graph_edge") then was.Text? && now == Some(Text(NormalizeEdge(was.text)))
      else now == Some(was)
  {
    assert c.Mapping?;
    hide NormalizeContract, Find, Below, DomainOf, FieldsEntry, ReferenceEntry, NormalizeFqnIn, NormalizeEdge;
    var domain := DomainOf(c.entries);
    var field := Find(c, [SPEC, FIELDS, Under(name)]).value;
    FieldBelow(c, name);
    ReferencesBelow(domain, name, field, k);
    ReferenceIs(domain, k, Find(field, [REFERENCES, Under(k)]).value);
  }

  lemma ReferenceIs(domain: string, k: Key, v: Yaml)
    requires ReferenceEntry(domain)(k, v).Some?
    ensures if k == Word("entity") then
              v.Text? && ReferenceEntry(domain)(k, v) == Some(Text(NormalizeFqnIn(v.text, "entity", domain)))
            else if k == Word("graph_edge") then
              v.Text? && ReferenceEntry(domain)(k, v) == Some(Text(NormalizeEdge(v.text)))
            else ReferenceEntry(domain)(k, v) == Some(v)
  {
    hide NormalizeFqnIn, NormalizeEdge;
    DifferentKeys();
    if k == Word("entity") { assert ReferenceEntry(domain)(k, v) == RefValue(v, "entity", domain); }
    if k == Word("graph_edge") { assert ReferenceEntry(domain)(k, v) == EdgeValue(v); }
  }

  /** Outside of metadata, `requires` and `spec` a contract stays as it is. */
  lemma RestStays(c: Yaml, k: Key)
    requires NormalizeContract(c).Some? && k != Word("metadata") && k != Word("requires") && k != Word("spec")
    ensures Below(NormalizeContract(c).value, Under(k)) == Below(c, Under(k))
  {
    ContractBelow(c, k);
    assert c.Mapping?;
    hide NormalizeContract, Below, DomainOf;
  }

  // ----- Which contracts can be normalised -----

  predicate Texts(v: Yaml) {
    v.Truthy() ==> Iterated(v).Some? && forall i :: 0 <= i < |Iterated(v).value| ==> Iterated(v).value[i].Text?
  }

  predicate ReferenceTyped(k: Key, v: Yaml) {
    k == Word("entity") || k == Word("graph_edge") ==> v.Text?
  }

  predicate FieldTyped(k: Key, v: Yaml) {
    k == Word("references") ==> EachHolds(v, ReferenceTyped)
  }

  predicate FieldsTyped(k: Key, v: Yaml) {
    EachHolds(v, FieldTyped)
  }

  predicate SpecTyped(k: Key, v: Yaml) {
    && (k == Word("fields") && v.Truthy() ==> v.Mapping? && EachHolds(v, FieldsTyped))
    && (k == Word("state_machine") || k == Word("entity") ==> v.Text?)
    && (k == Word("mixins") ==> Texts(v))
  }

  predicate MetadataTyped(k: Key, v: Yaml) {
    k == Word("name") || k == Word("domain") ==> v.Text?
  }

  predicate ContractTyped(k: Key, v: Yaml) {
    && (k == Word("metadata") && v.Truthy() ==> v.Mapping? && EachHolds(v, MetadataTyped))
    && (k == Word("requires") ==> Texts(v))
    && (k == Word("spec") && v.Truthy() ==> v.Mapping? && EachHolds(v, SpecTyped))
  }

  ghost predicate Succeeds(f: Rewrite, holds: (Key, Yaml) -> bool) {
    forall k, v :: f(k, v).Some? <==> holds(k, v)
  }

  lemma {:induction false} MapEntriesSucceeds(entries: seq<Entry>, f: Rewrite, holds: (Key, Yaml) -> bool)
    requires Succeeds(f, holds)
    ensures MapEntries(entries, f).Some? <==> forall i :: 0 <= i < |entries| ==> holds(entries[i].key, entries[i].value)
  {
    if entries != [] {
      var init, last := entries[..|entries| - 1], entries[|entries| - 1];
      MapEntriesSucceeds(init, f, holds);
      assert (forall i :: 0 <= i < |entries| ==> holds(entries[i].key, entries[i].value))
        <==> (forall i :: 0 <= i < |init| ==> holds(init[i].key, init[i].value)) && holds(last.key, last.value);
    }
  }

  ghost predicate TakesTexts(f: Yaml -> Option<Yaml>) {
    forall v {:trigger f(v)} :: f(v).Some? <==> v.Text?
  }

  lemma {:induction false} MapItemsSucceeds(items: seq<Yaml>, f: Yaml -> Option<Yaml>)
    requires TakesTexts(f)
    ensures MapItems(items, f).Some? <==> forall i :: 0 <= i < |items| ==> items[i].Text?
  {
    if items != [] {
      MapItemsSucceeds(items[..|items| - 1], f);
      assert items == items[..|items| - 1] + [items[|items| - 1]];
    }
  }

  lemma MappingSucceeds(v: Yaml, f: Rewrite, holds: (Key, Yaml) -> bool)
    requires v.Mapping? && Succeeds(f, holds)
    ensures MappingValue(v, f).Some? <==> EachHolds(v, holds)
  {
    MapEntriesSucceeds(v.entries, f, holds);
  }

  lemma ListSucceeds(v: Yaml, f: Yaml -> Option<Yaml>)
    requires TakesTexts(f)
    ensures ListValue(v, f).Some? <==> Texts(v)
  {
    if v.Truthy() && Iterated(v).Some? { MapItemsSucceeds(Iterated(v).value, f); }
  }

  lemma ReferenceSucceeds(domain: string)
    ensures Succeeds(ReferenceEntry(domain), ReferenceTyped)
  {
    hide NormalizeFqnIn, NormalizeEdge;
    forall k, v ensures ReferenceEntry(domain)(k, v).Some? <==> ReferenceTyped(k, v) {
      if k == Word("entity") {
        assert ReferenceEntry(domain)(k, v) == RefValue(v, "entity", domain);
      } else if k == Word("graph_edge") {
        assert ReferenceEntry(domain)(k, v) == EdgeValue(v);
      } else {
        assert ReferenceEntry(domain)(k, v) == Some(v);
      }
    }
  }

  lemma FieldSucceeds(domain: string)
    ensures Succeeds(FieldEntry(domain), FieldTyped)
  {
    ReferenceSucceeds(domain);
    hide ReferenceEntry, ReferenceTyped, MapEntries;
    forall k, v ensures FieldEntry(domain)(k, v).Some? <==> FieldTyped(k, v) {
      if v.Mapping? { MappingSucceeds(v, ReferenceEntry(domain), ReferenceTyped); }
    }
  }

  lemma FieldsSucceed(domain: string)
    ensures Succeeds(FieldsEntry(domain), FieldsTyped)
  {
    FieldSucceeds(domain);
    forall k, v ensures FieldsEntry(domain)(k, v).Some? <==> EachHolds(v, FieldTyped) {
      if v.Mapping? { MappingSucceeds(v, FieldEntry(domain), FieldTyped); }
    }
  }

  lemma SpecSucceeds(domain: string)
    ensures Succeeds(SpecEntry(domain), SpecTyped)
  {
    FieldsSucceed(domain);
    forall k, v ensures SpecEntry(domain)(k, v).Some? <==> SpecTyped(k, v) {
      if v.Mapping? { MappingSucceeds(v, FieldsEntry(domain), FieldsTyped); }
      ListSucceeds(v, x => RefValue(x, "mixin", domain));
    }
  }

  lemma ContractSucceeds(domain: string, k: Key, v: Yaml)
    ensures ContractEntry(domain)(k, v).Some? <==> ContractTyped(k, v)
  {
    DifferentKeys();
    if k == Word("metadata") {
      assert Succeeds(MetadataEntry, MetadataTyped);
      if v.Mapping? { MappingSucceeds(v, MetadataEntry, MetadataTyped); }
      assert ContractEntry(domain)(k, v) == OrEmpty(v, MetadataEntry);
    } else if k == Word("requires") {
      ListSucceeds(v, x => RequiresValue(x, domain));
      assert ContractEntry(domain)(k, v) == ListValue(v, x => RequiresValue(x, domain));
    } else if k == Word("spec") {
      SpecSucceeds(domain);
      if v.Mapping? { MappingSucceeds(v, SpecEntry(domain), SpecTyped); }
      assert ContractEntry(domain)(k, v) == OrEmpty(v, SpecEntry(domain));
    } else {
      assert ContractEntry(domain)(k, v) == Some(v);
    }
  }

  /** Normalising raises exactly where a name, a reference or an edge is no string, or a place for
  several of them holds something that cannot be gone through. */
  lemma NormalizesExactly(c: Yaml)
    ensures NormalizeContract(c).Some? <==> c.Mapping? && EachHolds(c, ContractTyped)
  {
    if c.Mapping? {
      var domain := DomainOf(c.entries);
      var f := ContractEntry(domain);
      forall k, v ensures f(k, v).Some? <==> ContractTyped(k, v) { ContractSucceeds(domain, k, v); }
      hide ContractTyped, ContractEntry, DomainOf;
      MappingSucceeds(c, f, ContractTyped);
    }
  }
}
