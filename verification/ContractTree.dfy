/** Contracts as YAML trees: `normalize_contract` (`forge/normalize.py`), `strip_internal_keys`
(`healer/applier.py`) and the deterministic proposer.

`None` stands for an exception: a missing method on a value of the wrong type. */
module ContractTree {
  import opened Collections
  import opened Normalizer
  import opened Splitting

  datatype Key = Word(word: string) | Other(number: int)

  datatype Entry = Entry(key: Key, value: Yaml)

  datatype Yaml =
    | Null
    | Flag(flag: bool)
    | Number(number: real)
    | Text(text: string)
    | List(items: seq<Yaml>)
    | Mapping(entries: seq<Entry>)
  {
    /** Python's truth value. */
    predicate Truthy() {
      match this
      case Null => false
      case Flag(flag) => flag
      case Number(number) => number != 0.0
      case Text(text) => text != ""
      case List(items) => items != []
      case Mapping(entries) => entries != []
    }
  }

  // ----- strip_internal_keys -----

  predicate Internal(k: Key) {
    k.Word? && k.word != "" && k.word[0] == '_'
  }

  function Strip(y: Yaml): Yaml
    decreases y
  {
    match y
    case List(items) => List(StripItems(items))
    case Mapping(entries) => Mapping(StripEntries(entries))
    case _ => y
  }

  function StripItems(items: seq<Yaml>): seq<Yaml>
    decreases items
  {
    if items == [] then [] else [Strip(items[0])] + StripItems(items[1..])
  }

  function StripEntries(entries: seq<Entry>): seq<Entry>
    decreases entries
  {
    if entries == [] then []
    else
      var first := entries[0];
      assert (entries decreases to first) && (first decreases to first.value);
      (if Internal(first.key) then [] else [Entry(first.key, Strip(first.value))]) + StripEntries(entries[1..])
  }

  /** No underscore key at any depth. */
  predicate Clean(y: Yaml)
    decreases y
  {
    match y
    case List(items) => forall i :: 0 <= i < |items| ==> Clean(items[i])
    case Mapping(entries) => forall i :: 0 <= i < |entries| ==> !Internal(entries[i].key) && Clean(entries[i].value)
    case _ => true
  }

  /** What is left has no internal key, and a tree without one is left alone: stripping is a
  projection onto the clean trees. */
  lemma {:induction false} StripIsProjection(y: Yaml)
    ensures Clean(Strip(y)) && (Clean(y) <==> Strip(y) == y)
    decreases y
  {
    match y
    case List(items) => StripItemsIsProjection(items);
    case Mapping(entries) => StripEntriesIsProjection(entries);
    case _ =>
  }

  lemma {:induction false} StripItemsIsProjection(items: seq<Yaml>)
    ensures Clean(List(StripItems(items))) && (Clean(List(items)) <==> StripItems(items) == items)
    decreases items
  {
    if items != [] {
      StripIsProjection(items[0]);
      StripItemsIsProjection(items[1..]);
      assert items == [items[0]] + items[1..];
    }
  }

  lemma {:induction false} StripEntriesIsProjection(entries: seq<Entry>)
    ensures Clean(Mapping(StripEntries(entries))) && |StripEntries(entries)| <= |entries|
    ensures Clean(Mapping(entries)) <==> StripEntries(entries) == entries
    decreases entries
  {
    if entries != [] {
      var first := entries[0];
      assert (entries decreases to first) && (first decreases to first.value);
      StripIsProjection(first.value);
      StripEntriesIsProjection(entries[1..]);
      assert entries == [entries[0]] + entries[1..];
    }
  }

  lemma StripIdempotent(y: Yaml)
    ensures Strip(Strip(y)) == Strip(y)
  {
    StripIsProjection(y);
    StripIsProjection(Strip(y));
  }

  // ----- Rewriting the values of a mapping -----

  /** What happens to the value under a key; `None` is an exception. */
  type Rewrite = (Key, Yaml) -> Option<Yaml>

  function MapEntries(entries: seq<Entry>, f: Rewrite): Option<seq<Entry>> {
    if entries == [] then Some([])
    else
      var init, last := MapEntries(entries[..|entries| - 1], f), entries[|entries| - 1];
      var value := f(last.key, last.value);
      if init.None? || value.None? then None else Some(init.value + [Entry(last.key, value.value)])
  }

  function MapItems(items: seq<Yaml>, f: Yaml -> Option<Yaml>): Option<seq<Yaml>> {
    if items == [] then Some([])
    else
      var init, last := MapItems(items[..|items| - 1], f), f(items[|items| - 1]);
      if init.None? || last.None? then None else Some(init.value + [last.value])
  }

  /** A second application does not raise, and `holds` says exactly when it changes nothing. */
  ghost predicate Settles(f: Rewrite, holds: (Key, Yaml) -> bool) {
    forall k, v :: f(k, v).Some? ==>
      f(k, f(k, v).value).Some? && (f(k, f(k, v).value) == f(k, v) <==> holds(k, v))
  }

  ghost predicate SettlesItems(f: Yaml -> Option<Yaml>, holds: Yaml -> bool) {
    forall v :: f(v).Some? ==> f(f(v).value).Some? && (f(f(v).value) == f(v) <==> holds(v))
  }

  lemma {:induction false} MapEntriesSettles(entries: seq<Entry>, f: Rewrite, holds: (Key, Yaml) -> bool)
    requires Settles(f, holds) && MapEntries(entries, f).Some?
    ensures var once := MapEntries(entries, f).value;
      && |once| == |entries| && MapEntries(once, f).Some?
      && (MapEntries(once, f) == Some(once)
          <==> forall i :: 0 <= i < |entries| ==> holds(entries[i].key, entries[i].value))
  {
    if entries != [] {
      var init, last := entries[..|entries| - 1], entries[|entries| - 1];
      MapEntriesSettles(init, f, holds);
      var once := MapEntries(entries, f).value;
      assert once[..|once| - 1] == MapEntries(init, f).value;
      var all := forall i :: 0 <= i < |init| ==> holds(init[i].key, init[i].value);
      assert (forall i :: 0 <= i < |entries| ==> holds(entries[i].key, entries[i].value))
        <==> all && holds(last.key, last.value);
    }
  }

  lemma {:induction false} MapItemsSettles(items: seq<Yaml>, f: Yaml -> Option<Yaml>, holds: Yaml -> bool)
    requires SettlesItems(f, holds) && MapItems(items, f).Some?
    ensures var once := MapItems(items, f).value;
      && |once| == |items| && MapItems(once, f).Some?
      && (MapItems(once, f) == Some(once) <==> forall i :: 0 <= i < |items| ==> holds(items[i]))
  {
    if items != [] {
      var init, last := items[..|items| - 1], items[|items| - 1];
      MapItemsSettles(init, f, holds);
      var once := MapItems(items, f).value;
      assert once[..|once| - 1] == MapItems(init, f).value;
      var all := forall i :: 0 <= i < |init| ==> holds(init[i]);
      assert (forall i :: 0 <= i < |items| ==> holds(items[i])) <==> all && holds(last);
    }
  }

  // ----- normalize_contract -----

  function NameValue(v: Yaml): Option<Yaml> {
    if v.Text? then Some(Text(NormalizeName(v.text))) else None
  }

  function RefValue(v: Yaml, kind: string, domain: string): Option<Yaml> {
    if v.Text? then Some(Text(NormalizeFqnIn(v.text, kind, domain))) else None
  }

  function RequiresValue(v: Yaml, domain: string): Option<Yaml> {
    if v.Text? then Some(Text(NormalizeRequiresIn(v.text, domain))) else None
  }

  function EdgeValue(v: Yaml): Option<Yaml> {
    if v.Text? then Some(Text(NormalizeEdge(v.text))) else None
  }

  function Characters(s: string): seq<Yaml> {
    if s == "" then [] else Characters(s[..|s| - 1]) + [Text([s[|s| - 1]])]
  }

  function KeysOf(entries: seq<Entry>): seq<Yaml> {
    if entries == [] then []
    else
      var k := entries[|entries| - 1].key;
      KeysOf(entries[..|entries| - 1]) + [if k.Word? then Text(k.word) else Number(k.number as real)]
  }

  /** What a `for` over the value yields: a string yields its characters, a mapping its keys. */
  function Iterated(v: Yaml): Option<seq<Yaml>> {
    match v
    case List(items) => Some(items)
    case Text(text) => Some(Characters(text))
    case Mapping(entries) => Some(KeysOf(entries))
    case _ => None
  }

  /** `if xs: x = [f(x) for x in xs]` */
  function ListValue(v: Yaml, f: Yaml -> Option<Yaml>): Option<Yaml> {
    if !v.Truthy() then Some(v)
    else
      var items := Iterated(v);
      if items.None? then None
      else
        var mapped := MapItems(items.value, f);
        if mapped.None? then None else Some(List(mapped.value))
  }

  function MappingValue(v: Yaml, f: Rewrite): Option<Yaml>
    requires v.Mapping?
  {
    var mapped := MapEntries(v.entries, f);
    if mapped.None? then None else Some(Mapping(mapped.value))
  }

  /** `(value or {})` whose methods are then called. */
  function OrEmpty(v: Yaml, f: Rewrite): Option<Yaml> {
    if !v.Truthy() then Some(v) else if v.Mapping? then MappingValue(v, f) else None
  }

  function MetadataEntry(k: Key, v: Yaml): Option<Yaml> {
    if k == Word("name") || k == Word("domain") then NameValue(v) else Some(v)
  }

  function ReferenceEntry(domain: string): Rewrite {
    (k: Key, v: Yaml) =>
      if k == Word("entity") then RefValue(v, "entity", domain)
      else if k == Word("graph_edge") then EdgeValue(v)
      else Some(v)
  }

  function FieldEntry(domain: string): Rewrite {
    (k: Key, v: Yaml) =>
      if k == Word("references") && v.Mapping? then MappingValue(v, ReferenceEntry(domain)) else Some(v)
  }

  function FieldsEntry(domain: string): Rewrite {
    (k: Key, v: Yaml) => if v.Mapping? then MappingValue(v, FieldEntry(domain)) else Some(v)
  }

  function SpecEntry(domain: string): Rewrite {
    (k: Key, v: Yaml) =>
      if k == Word("fields") then OrEmpty(v, FieldsEntry(domain))
      else if k == Word("state_machine") then RefValue(v, "workflow", domain)
      else if k == Word("entity") then RefValue(v, "entity", domain)
      else if k == Word("mixins") then ListValue(v, x => RefValue(x, "mixin", domain))
      else Some(v)
  }

  function ContractEntry(domain: string): Rewrite {
    (k: Key, v: Yaml) =>
      if k == Word("metadata") then OrEmpty(v, MetadataEntry)
      else if k == Word("requires") then ListValue(v, x => RequiresValue(x, domain))
      else if k == Word("spec") then OrEmpty(v, SpecEntry(domain))
      else Some(v)
  }

  function Get(entries: seq<Entry>, k: Key): Option<Yaml> {
    if entries == [] then None
    else if entries[0].key == k then Some(entries[0].value)
    else Get(entries[1..], k)
  }

  /** The normalised domain; a domain that is no string raises when it is normalised. */
  function DomainOf(entries: seq<Entry>): string {
    var metadata := Get(entries, Word("metadata"));
    if metadata.None? || !metadata.value.Mapping? then ""
    else
      var domain := Get(metadata.value.entries, Word("domain"));
      if domain.None? || !domain.value.Text? then "" else NormalizeName(domain.value.text)
  }

  function NormalizeContract(c: Yaml): Option<Yaml> {
    if !c.Mapping? then None else MappingValue(c, ContractEntry(DomainOf(c.entries)))
  }

  // ----- When one round is enough -----

  predicate RefHolds(v: Yaml, domain: string) {
    v.Text? ==> |Parts('/', v.text)| > 1 || DomainSettles(domain)
  }

  predicate EdgeHolds(v: Yaml) {
    v.Text? ==> !DigitThenLetter(NormalizeName(v.text))
  }

  predicate ListHolds(v: Yaml, domain: string) {
    v.Truthy() && Iterated(v).Some? ==>
      forall i :: 0 <= i < |Iterated(v).value| ==> RefHolds(Iterated(v).value[i], domain)
  }

  predicate EachHolds(v: Yaml, holds: (Key, Yaml) -> bool) {
    v.Mapping? ==> forall i :: 0 <= i < |v.entries| ==> holds(v.entries[i].key, v.entries[i].value)
  }

  function ReferenceHolds(domain: string): (Key, Yaml) -> bool {
    (k: Key, v: Yaml) => (k == Word("entity") ==> RefHolds(v, domain)) && (k == Word("graph_edge") ==> EdgeHolds(v))
  }

  function FieldHolds(domain: string): (Key, Yaml) -> bool {
    (k: Key, v: Yaml) => k == Word("references") ==> EachHolds(v, ReferenceHolds(domain))
  }

  function FieldsHold(domain: string): (Key, Yaml) -> bool {
    (k: Key, v: Yaml) => EachHolds(v, FieldHolds(domain))
  }

  function SpecHolds(domain: string): (Key, Yaml) -> bool {
    (k: Key, v: Yaml) =>
      && (k == Word("fields") ==> EachHolds(v, FieldsHold(domain)))
      && (k == Word("state_machine") || k == Word("entity") ==> RefHolds(v, domain))
      && (k == Word("mixins") ==> ListHolds(v, domain))
  }

  function ContractHolds(domain: string): (Key, Yaml) -> bool {
    (k: Key, v: Yaml) =>
      && (k == Word("requires") ==> ListHolds(v, domain))
      && (k == Word("spec") ==> EachHolds(v, SpecHolds(domain)))
  }

  /** Every reference names its domain unless the contract's own domain settles, and no
  normalised graph edge has a digit before a letter. */
  predicate OneRound(c: Yaml) {
    c.Mapping? ==> EachHolds(c, ContractHolds(DomainOf(c.entries)))
  }

  lemma MappingSettles(v: Yaml, f: Rewrite, holds: (Key, Yaml) -> bool)
    requires Settles(f, holds) && v.Mapping? && MappingValue(v, f).Some?
    ensures var once := MappingValue(v, f).value;
      once.Mapping? && |once.entries| == |v.entries| && MappingValue(once, f).Some?
      && (MappingValue(once, f) == Some(once) <==> EachHolds(v, holds))
  {
    MapEntriesSettles(v.entries, f, holds);
  }

  lemma OrEmptySettles(v: Yaml, f: Rewrite, holds: (Key, Yaml) -> bool)
    requires Settles(f, holds) && OrEmpty(v, f).Some?
    ensures var once := OrEmpty(v, f).value;
      OrEmpty(once, f).Some? && (OrEmpty(once, f) == Some(once) <==> EachHolds(v, holds))
  {
    if v.Truthy() { MappingSettles(v, f, holds); }
  }

  lemma ListSettles(v: Yaml, f: Yaml -> Option<Yaml>, domain: string)
    requires SettlesItems(f, x => RefHolds(x, domain)) && ListValue(v, f).Some?
    ensures var once := ListValue(v, f).value;
      ListValue(once, f).Some? && (ListValue(once, f) == Some(once) <==> ListHolds(v, domain))
  {
    hide MapItems, RefHolds, Characters, KeysOf;
    if v.Truthy() {
      MapItemsSettles(Iterated(v).value, f, x => RefHolds(x, domain));
      IteratedNonEmpty(v);
    }
  }

  lemma IteratedNonEmpty(v: Yaml)
    requires v.Truthy() && Iterated(v).Some?
    ensures Iterated(v).value != []
  {
  }

  lemma RefSettles(v: Yaml, kind: string, domain: string)
    requires IsKind(kind) && Normal(domain) && v.Text?
    ensures var once := RefValue(v, kind, domain).value;
      RefValue(once, kind, domain) == Some(once) <==> RefHolds(v, domain)
  {
    NormalizeFqnSettles(v.text, kind, domain, kind);
  }

  lemma MetadataSettles()
    ensures Settles(MetadataEntry, (k, v) => true)
  {
    forall k, v | MetadataEntry(k, v).Some? ensures MetadataEntry(k, MetadataEntry(k, v).value) == MetadataEntry(k, v) {
      if v.Text? { NormalizeNameIdempotent(v.text); }
    }
  }

  lemma ReferenceSettles(domain: string)
    requires Normal(domain)
    ensures Settles(ReferenceEntry(domain), ReferenceHolds(domain))
  {
    var f, holds := ReferenceEntry(domain), ReferenceHolds(domain);
    forall k, v | f(k, v).Some?
      ensures f(k, f(k, v).value).Some? && (f(k, f(k, v).value) == f(k, v) <==> holds(k, v))
    {
      if k == Word("entity") {
        assert f(k, v) == RefValue(v, "entity", domain);
        RefSettles(v, "entity", domain);
      }
      if k == Word("graph_edge") {
        assert f(k, v) == EdgeValue(v);
        NormalizeEdgeSettles(v.text);
      }
    }
  }

  lemma FieldSettles(domain: string)
    requires Normal(domain)
    ensures Settles(FieldEntry(domain), FieldHolds(domain))
  {
    var f, holds := FieldEntry(domain), FieldHolds(domain);
    ReferenceSettles(domain);
    forall k, v | f(k, v).Some?
      ensures f(k, f(k, v).value).Some? && (f(k, f(k, v).value) == f(k, v) <==> holds(k, v))
    {
      if k == Word("references") && v.Mapping? { MappingSettles(v, ReferenceEntry(domain), ReferenceHolds(domain)); }
    }
  }

  lemma FieldsSettle(domain: string)
    requires Normal(domain)
    ensures Settles(FieldsEntry(domain), FieldsHold(domain))
  {
    var f, holds := FieldsEntry(domain), FieldsHold(domain);
    FieldSettles(domain);
    forall k, v | f(k, v).Some?
      ensures f(k, f(k, v).value).Some? && (f(k, f(k, v).value) == f(k, v) <==> holds(k, v))
    {
      if v.Mapping? { MappingSettles(v, FieldEntry(domain), FieldHolds(domain)); }
    }
  }

  lemma SpecSettles(domain: string)
    requires Normal(domain)
    ensures Settles(SpecEntry(domain), SpecHolds(domain))
  {
    var f, holds := SpecEntry(domain), SpecHolds(domain);
    FieldsSettle(domain);
    MixinSettles(domain);
    forall k, v | f(k, v).Some?
      ensures f(k, f(k, v).value).Some? && (f(k, f(k, v).value) == f(k, v) <==> holds(k, v))
    {
      if k == Word("fields") { OrEmptySettles(v, FieldsEntry(domain), FieldsHold(domain)); }
      if k == Word("state_machine") { RefSettles(v, "workflow", domain); }
      if k == Word("entity") { RefSettles(v, "entity", domain); }
      if k == Word("mixins") { ListSettles(v, x => RefValue(x, "mixin", domain), domain); }
    }
  }

  lemma MixinSettles(domain: string)
    requires Normal(domain)
    ensures SettlesItems(x => RefValue(x, "mixin", domain), x => RefHolds(x, domain))
  {
    forall v: Yaml | v.Text? ensures
      var once := RefValue(v, "mixin", domain).value; RefValue(once, "mixin", domain) == Some(once) <==> RefHolds(v, domain)
    {
      RefSettles(v, "mixin", domain);
    }
  }

  lemma RequiresSettles(domain: string)
    requires Normal(domain)
    ensures SettlesItems(x => RequiresValue(x, domain), x => RefHolds(x, domain))
  {
    forall v: Yaml | v.Text? ensures
      var once := RequiresValue(v, domain).value; RequiresValue(once, domain) == Some(once) <==> RefHolds(v, domain)
    {
      NormalizeRequiresSettles(v.text, domain);
    }
  }

  lemma ContractSettles(domain: string)
    requires Normal(domain)
    ensures Settles(ContractEntry(domain), ContractHolds(domain))
  {
    var f, holds := ContractEntry(domain), ContractHolds(domain);
    MetadataSettles();
    RequiresSettles(domain);
    SpecSettles(domain);
    forall k, v | f(k, v).Some?
      ensures f(k, f(k, v).value).Some? && (f(k, f(k, v).value) == f(k, v) <==> holds(k, v))
    {
      if k == Word("metadata") { OrEmptySettles(v, MetadataEntry, (k, v) => true); }
      if k == Word("requires") { ListSettles(v, x => RequiresValue(x, domain), domain); }
      if k == Word("spec") { OrEmptySettles(v, SpecEntry(domain), SpecHolds(domain)); }
    }
  }

  lemma {:induction false} GetMapped(entries: seq<Entry>, f: Rewrite, k: Key)
    requires MapEntries(entries, f).Some?
    ensures var once := MapEntries(entries, f).value;
      && (Get(once, k).None? <==> Get(entries, k).None?)
      && (Get(entries, k).Some? ==> f(k, Get(entries, k).value) == Get(once, k))
  {
    if entries != [] {
      var init, last := entries[..|entries| - 1], entries[|entries| - 1];
      GetMapped(init, f, k);
      GetAppend(init, last, k);
      var mapped := MapEntries(init, f).value;
      GetAppend(mapped, Entry(last.key, f(last.key, last.value).value), k);
      assert entries == init + [last];
    }
  }

  lemma {:induction false} GetAppend(entries: seq<Entry>, last: Entry, k: Key)
    ensures Get(entries + [last], k) ==
      if Get(entries, k).Some? then Get(entries, k) else if last.key == k then Some(last.value) else None
  {
    if entries == [] {
      assert entries + [last] == [last] && [last][1..] == [];
    } else {
      GetAppend(entries[1..], last, k);
      assert (entries + [last])[1..] == entries[1..] + [last];
    }
  }

  /** Normalising does not change which domain the contract is in. */
  lemma DomainStays(c: Yaml)
    requires c.Mapping? && NormalizeContract(c).Some?
    ensures DomainOf(NormalizeContract(c).value.entries) == DomainOf(c.entries) && Normal(DomainOf(c.entries))
  {
    var domain := DomainOf(c.entries);
    GetMapped(c.entries, ContractEntry(domain), Word("metadata"));
    var metadata := Get(c.entries, Word("metadata"));
    NormalizeNameIsNormal("");
    if metadata.Some? && metadata.value.Mapping? && metadata.value.Truthy() {
      GetMapped(metadata.value.entries, MetadataEntry, Word("domain"));
      var raw := Get(metadata.value.entries, Word("domain"));
      if raw.Some? && raw.value.Text? {
        NormalizeNameIsNormal(raw.value.text);
        NormalizeNameIdempotent(raw.value.text);
      }
    }
  }

  /** A second normalisation changes nothing exactly when the contract needs one round only. */
  lemma NormalizeSettlesExactly(c: Yaml)
    requires NormalizeContract(c).Some?
    ensures var once := NormalizeContract(c).value;
      NormalizeContract(once).Some? && (NormalizeContract(once) == Some(once) <==> OneRound(c))
  {
    DomainStays(c);
    var domain := DomainOf(c.entries);
    ContractSettles(domain);
    MappingSettles(c, ContractEntry(domain), ContractHolds(domain));
  }

  // ----- Normalising brings in no internal key -----

  ghost predicate KeepsClean(f: Rewrite) {
    forall k, v :: Clean(v) && f(k, v).Some? ==> Clean(f(k, v).value)
  }

  lemma {:induction false} MapEntriesClean(entries: seq<Entry>, f: Rewrite)
    requires KeepsClean(f) && MapEntries(entries, f).Some? && Clean(Mapping(entries))
    ensures Clean(Mapping(MapEntries(entries, f).value))
  {
    if entries != [] {
      var init := entries[..|entries| - 1];
      assert Clean(Mapping(init));
      MapEntriesClean(init, f);
    }
  }

  lemma {:induction false} MapItemsClean(items: seq<Yaml>, f: Yaml -> Option<Yaml>)
    requires (forall v :: f(v).Some? ==> Clean(f(v).value)) && MapItems(items, f).Some?
    ensures Clean(List(MapItems(items, f).value))
  {
    if items != [] { MapItemsClean(items[..|items| - 1], f); }
  }

  lemma MappingClean(v: Yaml, f: Rewrite)
    requires KeepsClean(f) && v.Mapping? && Clean(v) && MappingValue(v, f).Some?
    ensures Clean(MappingValue(v, f).value)
  {
    assert v == Mapping(v.entries);
    MapEntriesClean(v.entries, f);
  }

  lemma ListClean(v: Yaml, f: Yaml -> Option<Yaml>)
    requires (forall x :: f(x).Some? ==> Clean(f(x).value)) && Clean(v) && ListValue(v, f).Some?
    ensures Clean(ListValue(v, f).value)
  {
    if v.Truthy() { MapItemsClean(Iterated(v).value, f); }
  }

  lemma SpecClean(domain: string)
    ensures KeepsClean(SpecEntry(domain))
  {
    var reference, field, fields := ReferenceEntry(domain), FieldEntry(domain), FieldsEntry(domain);
    forall k, v | Clean(v) && reference(k, v).Some? ensures Clean(reference(k, v).value) {
      if k == Word("entity") {
        assert reference(k, v) == RefValue(v, "entity", domain);
      } else if k == Word("graph_edge") {
        assert reference(k, v) == EdgeValue(v);
      } else {
        assert reference(k, v) == Some(v);
      }
    }
    forall k, v | Clean(v) && field(k, v).Some? ensures Clean(field(k, v).value) {
      if k == Word("references") && v.Mapping? { MappingClean(v, reference); }
    }
    forall k, v | Clean(v) && fields(k, v).Some? ensures Clean(fields(k, v).value) {
      if v.Mapping? { MappingClean(v, field); }
    }
    var f := SpecEntry(domain);
    forall k, v | Clean(v) && f(k, v).Some? ensures Clean(f(k, v).value) {
      if k == Word("fields") && v.Truthy() && v.Mapping? { MappingClean(v, fields); }
      if k == Word("mixins") { ListClean(v, x => RefValue(x, "mixin", domain)); }
    }
  }

  lemma RequiresClean(v: Yaml, domain: string)
    requires Clean(v) && ListValue(v, x => RequiresValue(x, domain)).Some?
    ensures Clean(ListValue(v, x => RequiresValue(x, domain)).value)
  {
    ListClean(v, x => RequiresValue(x, domain));
  }

  lemma NormalizeClean(c: Yaml)
    requires Clean(c) && NormalizeContract(c).Some?
    ensures Clean(NormalizeContract(c).value)
  {
    var domain := DomainOf(c.entries);
    var f, spec := ContractEntry(domain), SpecEntry(domain);
    SpecClean(domain);
    assert KeepsClean(MetadataEntry);
    forall k, v | Clean(v) && f(k, v).Some? ensures Clean(f(k, v).value) {
      if k == Word("metadata") {
        assert f(k, v) == OrEmpty(v, MetadataEntry);
        if v.Truthy() { MappingClean(v, MetadataEntry); }
      } else if k == Word("requires") {
        assert f(k, v) == ListValue(v, x => RequiresValue(x, domain));
        RequiresClean(v, domain);
      } else if k == Word("spec") {
        assert f(k, v) == OrEmpty(v, spec);
        if v.Truthy() { MappingClean(v, spec); }
      } else {
        assert f(k, v) == Some(v);
      }
    }
    MappingClean(c, f);
  }

  // ----- propose_deterministic_fix -----

  datatype Proposal = Raises | NothingToFix | Fix(after: Yaml)

  /** The diff is taken to be empty exactly when the trees are equal. */
  function ProposeDeterministicFix(contract: Yaml): Proposal {
    var after := NormalizeContract(Strip(contract));
    if after.None? then Raises else if after.value == contract then NothingToFix else Fix(after.value)
  }

  /** A proposed contract has no internal keys, so applying it strips nothing more; and once it
  is written and read back, proposing again finds nothing exactly when one round was enough. */
  lemma ProposalFixpoint(contract: Yaml)
    requires ProposeDeterministicFix(contract).Fix?
    ensures var after := ProposeDeterministicFix(contract).after;
      && Clean(after) && Strip(after) == after
      && ProposeDeterministicFix(after) != Raises
      && (ProposeDeterministicFix(after) == NothingToFix <==> OneRound(Strip(contract)))
  {
    var stripped := Strip(contract);
    var after := ProposeDeterministicFix(contract).after;
    StripIsProjection(contract);
    NormalizeClean(stripped);
    StripIsProjection(after);
    NormalizeSettlesExactly(stripped);
  }

  /** Nothing is proposed exactly for contracts that are clean and normalised already. */
  lemma NothingToFixExactly(contract: Yaml)
    ensures ProposeDeterministicFix(contract) == NothingToFix
      <==> Clean(contract) && NormalizeContract(contract) == Some(contract)
  {
    StripIsProjection(contract);
    if ProposeDeterministicFix(contract) == NothingToFix {
      NormalizeClean(Strip(contract));
    }
  }
}
