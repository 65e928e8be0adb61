/** Which strings of a contract `forge/parser/dependencies.py` looks at, told by where they stand. */
module ContractMentions {
  import opened Collections
  import opened ContractTree
  import opened ContractPaths
  import opened ContractDependencies
  import opened Normalizer
  import opened Splitting

  const KIND := Under(Word("kind"))
  const ENTITY := Under(Word("entity"))
  const STATE_MACHINE := Under(Word("state_machine"))
  const HOOKS := Under(Word("ai_integration"))
  const ENDPOINTS := Under(Word("endpoints"))
  const SIDE_EFFECTS := Under(Word("side_effects"))
  const INPUT := Under(Word("input"))

  /** The string stands at the end of the path. */
  predicate TextAt(y: Yaml, path: seq<Move>, s: string) {
    Find(y, path) == Some(Text(s))
  }

  ghost predicate ItemIs(v: Yaml, s: string) {
    exists i: nat :: Below(v, Item(i)) == Some(Text(s))
  }

  /** The string itself, or one of a list. */
  ghost predicate OneOf(v: Yaml, s: string) {
    v == Text(s) || ItemIs(v, s)
  }

  /** The string stands anywhere in the value, but not as a key. */
  ghost predicate Inside(s: string, v: Yaml)
    decreases v
  {
    match v
    case Text(text) => text == s
    case List(items) => exists i :: 0 <= i < |items| && Inside(s, items[i])
    case Mapping(entries) => exists i :: 0 <= i < |entries| && Inside(s, entries[i].value)
    case _ => false
  }

  ghost predicate ForField(y: Option<Yaml>, s: string) {
    y.Some? && y.value.Mapping?
    && exists i :: 0 <= i < |y.value.entries| && TextAt(y.value.entries[i].value, [REFERENCES, ENTITY], s)
  }

  ghost predicate ForHook(y: Option<Yaml>, s: string) {
    y.Some? && y.value.Mapping? && exists i :: 0 <= i < |y.value.entries| && OneOf(y.value.entries[i].value, s)
  }

  ghost predicate ForEndpoint(y: Option<Yaml>, s: string) {
    y.Some? && y.value.List?
    && exists i :: 0 <= i < |y.value.items| && var effects := Below(y.value.items[i], SIDE_EFFECTS);
                   effects.Some? && Inside(s, effects.value)
  }

  /** What a spec of each kind of contract refers to. */
  ghost predicate Refers(kind: string, spec: Yaml, s: string) {
    if kind == "Entity" then
      || (Below(spec, MIXINS).Some? && OneOf(Below(spec, MIXINS).value, s))
      || Below(spec, STATE_MACHINE) == Some(Text(s))
      || ForField(Below(spec, FIELDS), s)
      || ForHook(Below(spec, HOOKS), s)
    else if kind == "Route" then Below(spec, ENTITY) == Some(Text(s)) || ForEndpoint(Below(spec, ENDPOINTS), s)
    else if kind == "Page" then Below(spec, ENTITY) == Some(Text(s))
    else if kind == "Agent" then TextAt(spec, [INPUT, ENTITY], s)
    else kind == "Mixin" && ForField(Below(spec, FIELDS), s)
  }

  // ----- The lists of the extraction, element by element -----

  lemma {:induction false} TextsExactly(items: seq<Yaml>, s: string)
    ensures s in ContractDependencies.Texts(items) <==> ItemIs(List(items), s)
  {
    if items == [] {
      assert !ItemIs(List(items), s);
    } else {
      var init, last := items[..|items| - 1], |items| - 1;
      TextsExactly(init, s);
      if i: nat :| Below(List(init), Item(i)) == Some(Text(s)) { assert Below(List(items), Item(i)) == Some(Text(s)); }
      if i: nat :| Below(List(items), Item(i)) == Some(Text(s)) && i < last {
        assert Below(List(init), Item(i)) == Some(Text(s));
      }
      assert Below(List(items), Item(last)) == Some(items[last]);
    }
  }

  lemma ManyExactly(v: Yaml, s: string)
    ensures s in Many(Some(v)) <==> OneOf(v, s)
  {
    if v.List? { TextsExactly(v.items, s); }
  }

  lemma {:induction false} NestedExactly(v: Yaml, s: string)
    ensures s in Nested(v) <==> Inside(s, v)
    decreases v
  {
    match v
    case List(items) => NestedItemsExactly(items, s);
    case Mapping(entries) => NestedEntriesExactly(entries, s);
    case _ =>
  }

  lemma {:induction false} NestedItemsExactly(items: seq<Yaml>, s: string)
    ensures s in NestedItems(items) <==> exists i :: 0 <= i < |items| && Inside(s, items[i])
    decreases items
  {
    if items != [] {
      NestedExactly(items[0], s);
      NestedItemsExactly(items[1..], s);
      if i :| 0 <= i < |items[1..]| && Inside(s, items[1..][i]) { assert Inside(s, items[i + 1]); }
      if i :| 0 <= i < |items| && Inside(s, items[i]) && i > 0 { assert Inside(s, items[1..][i - 1]); }
    }
  }

  lemma {:induction false} NestedEntriesExactly(entries: seq<Entry>, s: string)
    ensures s in NestedEntries(entries) <==> exists i :: 0 <= i < |entries| && Inside(s, entries[i].value)
    decreases entries
  {
    if entries != [] {
      var first := entries[0];
      assert (entries decreases to first) && (first decreases to first.value);
      NestedExactly(first.value, s);
      NestedEntriesExactly(entries[1..], s);
      if i :| 0 <= i < |entries[1..]| && Inside(s, entries[1..][i].value) { assert Inside(s, entries[i + 1].value); }
      if i :| 0 <= i < |entries| && Inside(s, entries[i].value) && i > 0 { assert Inside(s, entries[1..][i - 1].value); }
    }
  }

  lemma FieldTargetExactly(field: Yaml, s: string)
    ensures s in FieldTarget(field) <==> TextAt(field, [REFERENCES, ENTITY], s)
  {
    Find2(field, REFERENCES, ENTITY);
  }

  lemma {:induction false} FieldTargetsExactly(fields: seq<Entry>, s: string)
    ensures s in FieldTargets(fields) <==> ForField(Some(Mapping(fields)), s)
  {
    hide FieldTarget, TextAt;
    if fields != [] {
      var init, last := fields[..|fields| - 1], fields[|fields| - 1];
      FieldTargetsExactly(init, s);
      FieldTargetExactly(last.value, s);
      if i :| 0 <= i < |init| && TextAt(init[i].value, [REFERENCES, ENTITY], s) {
        assert TextAt(fields[i].value, [REFERENCES, ENTITY], s);
      }
      if i :| 0 <= i < |fields| && TextAt(fields[i].value, [REFERENCES, ENTITY], s) && i < |init| {
        assert TextAt(init[i].value, [REFERENCES, ENTITY], s);
      }
    }
  }

  lemma {:induction false} AgentListsExactly(hooks: seq<Entry>, s: string)
    ensures s in AgentLists(hooks) <==> ForHook(Some(Mapping(hooks)), s)
  {
    hide OneOf, Many;
    if hooks != [] {
      var init, last := hooks[..|hooks| - 1], hooks[|hooks| - 1];
      AgentListsExactly(init, s);
      ManyExactly(last.value, s);
      if i :| 0 <= i < |init| && OneOf(init[i].value, s) { assert OneOf(hooks[i].value, s); }
      if i :| 0 <= i < |hooks| && OneOf(hooks[i].value, s) && i < |init| { assert OneOf(init[i].value, s); }
    }
  }

  ghost predicate HasEffect(endpoint: Yaml, s: string) {
    var effects := Below(endpoint, SIDE_EFFECTS);
    effects.Some? && Inside(s, effects.value)
  }

  lemma EffectsExactly(endpoint: Yaml, s: string)
    ensures s in Effects(endpoint) <==> HasEffect(endpoint, s)
  {
    hide Nested, Inside;
    var effects := Below(endpoint, SIDE_EFFECTS);
    if effects.Some? { NestedExactly(effects.value, s); }
  }

  lemma {:induction false} EndpointEffectsExactly(endpoints: seq<Yaml>, s: string)
    ensures s in EndpointEffects(endpoints) <==> exists i :: 0 <= i < |endpoints| && HasEffect(endpoints[i], s)
  {
    hide HasEffect, Effects;
    if endpoints != [] {
      var init, last := endpoints[..|endpoints| - 1], endpoints[|endpoints| - 1];
      EndpointEffectsExactly(init, s);
      EffectsExactly(last, s);
      if i :| 0 <= i < |init| && HasEffect(init[i], s) { assert HasEffect(endpoints[i], s); }
      if i :| 0 <= i < |endpoints| && HasEffect(endpoints[i], s) && i < |init| { assert HasEffect(init[i], s); }
    }
  }

  /** Characters and keys have no effects. */
  lemma {:induction false} CharactersHaveNone(text: string, s: string)
    ensures s !in EndpointEffects(Characters(text))
  {
    if text != "" { CharactersHaveNone(text[..|text| - 1], s); }
  }

  lemma {:induction false} KeysHaveNone(entries: seq<Entry>, s: string)
    ensures s !in EndpointEffects(KeysOf(entries))
  {
    if entries != [] { KeysHaveNone(entries[..|entries| - 1], s); }
  }

  lemma EntityExactly(spec: seq<Entry>, s: string)
    requires EntityMentions(spec).Some?
    ensures s in EntityMentions(spec).value <==> Refers("Entity", Mapping(spec), s)
  {
    hide Many, FieldTargets, AgentLists, OneOf, ForField, ForHook;
    var mixins, fields, hooks := Get(spec, Word("mixins")), Values(spec, "fields").value, Values(spec, "ai_integration").value;
    if mixins.Some? { ManyExactly(mixins.value, s); } else { NoneAreMany(); }
    FieldTargetsExactly(fields, s);
    AgentListsExactly(hooks, s);
    NothingForNone(s);
  }

  lemma NoneAreMany()
    ensures Many(None) == []
  {
  }

  lemma NothingForNone(s: string)
    ensures !ForField(None, s) && !ForHook(None, s)
    ensures !ForField(Some(Mapping([])), s) && !ForHook(Some(Mapping([])), s)
  {
  }

  lemma RouteExactly(spec: seq<Entry>, s: string)
    requires RouteMentions(spec).Some?
    ensures s in RouteMentions(spec).value <==> Refers("Route", Mapping(spec), s)
  {
    hide EndpointEffects, Characters, KeysOf;
    var v := Get(spec, Word("endpoints"));
    var endpoints := if v.None? then [] else Iterated(v.value).value;
    EndpointEffectsExactly(endpoints, s);
    if v.Some? && v.value.Text? { CharactersHaveNone(v.value.text, s); }
    if v.Some? && v.value.Mapping? { KeysHaveNone(v.value.entries, s); }
    if v.Some? && v.value.List? {
      if i :| 0 <= i < |endpoints| && HasEffect(endpoints[i], s) {
        assert HasEffect(v.value.items[i], s);
      }
    }
  }

  lemma SpecExactly(kind: string, spec: seq<Entry>, s: string)
    requires SpecMentions(kind, spec).Some?
    ensures s in SpecMentions(kind, spec).value <==> Refers(kind, Mapping(spec), s)
  {
    hide EntityMentions, RouteMentions, FieldTargets, ForField, ForHook, ForEndpoint, OneOf;
    if kind == "Entity" {
      EntityExactly(spec, s);
    } else if kind == "Route" {
      RouteExactly(spec, s);
    } else if kind == "Agent" {
      Find2(Mapping(spec), INPUT, ENTITY);
    } else if kind == "Mixin" {
      FieldTargetsExactly(Values(spec, "fields").value, s);
      NothingForNone(s);
    }
  }

  /** The kind of a contract, if it is a string. */
  function KindOf(contract: seq<Entry>): string {
    var k := Below(Mapping(contract), KIND);
    if k.Some? && k.value.Text? then k.value.text else ""
  }

  function SpecOf(contract: seq<Entry>): Yaml {
    var spec := Below(Mapping(contract), Under(Word("spec")));
    if spec.Some? then spec.value else Mapping([])
  }

  /** The merged list has exactly the well-formed references among the entries of `requires` and
  those that the contract's kind makes of its spec, each once. */
  lemma MentionedExactly(contract: seq<Entry>, s: string)
    requires Merge(contract).Some?
    ensures var listed := exists i: nat :: TextAt(Mapping(contract), [REQUIRES, Item(i)], s);
      s in Merge(contract).value <==> IsRef(s) && (listed || Refers(KindOf(contract), SpecOf(contract), s))
  {
    hide IsRef, SpecMentions, Refers, Find, Below;
    MergedExactly(contract);
    RequiresExactly(contract, s);
    SemanticExactly(contract, s);
  }

  lemma RequiresExactly(contract: seq<Entry>, s: string)
    ensures s in RequiresMentions(contract) <==> exists i: nat :: TextAt(Mapping(contract), [REQUIRES, Item(i)], s)
  {
    var listed := Get(contract, Word("requires"));
    forall i: nat ensures Find(Mapping(contract), [REQUIRES, Item(i)])
      == if listed.None? then None else Below(listed.value, Item(i))
    {
      Find2(Mapping(contract), REQUIRES, Item(i));
    }
    hide Find, ContractDependencies.Texts;
    if listed.Some? && listed.value.List? {
      TextsExactly(listed.value.items, s);
      if i: nat :| Below(listed.value, Item(i)) == Some(Text(s)) {
        assert TextAt(Mapping(contract), [REQUIRES, Item(i)], s);
      }
    }
  }

  lemma SemanticExactly(contract: seq<Entry>, s: string)
    requires SemanticMentions(contract).Some?
    ensures s in SemanticMentions(contract).value <==> Refers(KindOf(contract), SpecOf(contract), s)
  {
    hide SpecMentions, ForField, ForHook, ForEndpoint, OneOf, TextAt;
    var kind, spec := KindOf(contract), SpecOf(contract);
    if ReadsSpec(kind) { SpecExactly(kind, spec.entries, s); }
  }

  /** Reading a contract raises exactly for a kind that is a list or a mapping, a spec of a known
  kind that is no mapping, and fields, hooks or endpoints that cannot be gone through. */
  lemma RaisesExactly(contract: seq<Entry>)
    ensures var k, kind, spec := Below(Mapping(contract), KIND), KindOf(contract), SpecOf(contract);
      var bad := (m: Move) => Below(spec, m).Some? && !Below(spec, m).value.Mapping?;
      Merge(contract).None? <==>
        || (k.Some? && (k.value.List? || k.value.Mapping?))
        || (ReadsSpec(kind) && !spec.Mapping?)
        || ((kind == "Entity" || kind == "Mixin") && bad(FIELDS))
        || (kind == "Entity" && bad(HOOKS))
        || (kind == "Route" && Below(spec, ENDPOINTS).Some? && Iterated(Below(spec, ENDPOINTS).value).None?)
  {
    hide Many, FieldTargets, AgentLists, EndpointEffects, AddAll, Iterated;
    Kinds();
  }

  lemma Kinds()
    ensures "Entity" != "Mixin" && "Entity" != "Route" && "Mixin" != "Route" && "Page" != "Agent"
  {
    assert "Entity"[0] == 'E' && "Mixin"[0] == 'M' && "Route"[0] == 'R' && "Page"[0] == 'P' && "Agent"[0] == 'A';
  }

  /** A fully qualified name of reference characters is recognised as a reference. */
  lemma FqnIsRef(s: string)
    requires IsFqn(s) && forall c <- s :: RefChar(c)
    ensures IsRef(s)
  {
    var parts := Parts('/', s);
    PartsRejoin('/', s);
    var i := |parts[0]|;
    assert s == parts[0] + ['/'] + Joined('/', parts[1..]);
    assert Joined('/', parts[1..]) == parts[1] + ['/'] + Joined('/', parts[1..][1..]);
    assert s[..i] == parts[0] && s[i] == '/' && i < |s| - 1 && i > 0;
    assert forall k :: i < k < |s| ==> s[k] in s;
    assert IsRefLine(s);
  }
}
