/**
 * The packed scene document: scenes, their metadata and external
 * dependencies, entities with tags, components and child entities, and the
 * conversion of each to and from a JSON value. Every field is optional when
 * reading; writing always emits every field.
 */
module Scene {
  import opened Json
  import opened Uuid

  const TAG_TYPE := "type"

  const TAG_UUID := "uuid"
  const TAG_NAME := "name"
  const TAG_TAGS := "tags"
  const TAG_ENABLED := "enabled"
  const TAG_CHILDREN := "children"
  const TAG_COMPONENTS := "components"

  const TAG_DEPENDENCY_TYPE := "type"

  const TAG_EDITORVERSION := "editorVersion"
  const TAG_ENGINEVERSION := "engineVersion"
  const TAG_LASTMODIFIED := "lastModified"
  const TAG_AUTHOR := "author"

  const TAG_SCENEUUID := "sceneUUID"
  const TAG_SCENENAME := "sceneName"
  const TAG_METADATA := "metadata"
  const TAG_EXTERNALDEPENDENCIES := "externalDependencies"
  const TAG_ENTITIES := "entities"

  /** A component: its type name and its data as JSON text. */
  datatype PackedComponent = PackedComponent(componentTypeName: string, jsonData: JsonText)

  datatype PackedEntity = PackedEntity(
    uuid: Uuid,
    name: string,
    tags: seq<string>,
    enabled: bool,
    components: seq<PackedComponent>,
    children: seq<PackedEntity>)

  datatype PackedExternalDependency = PackedExternalDependency(uuid: Uuid, typeName: string)

  datatype PackedSceneMetadata = PackedSceneMetadata(
    editorVersion: string,
    engineVersion: string,
    lastModified: string,
    author: string)

  const EMPTY_METADATA := PackedSceneMetadata("", "", "", "")

  datatype PackedScene = PackedScene(
    uuid: Uuid,
    name: string,
    metadata: PackedSceneMetadata,
    externalDependencies: seq<PackedExternalDependency>,
    entities: seq<PackedEntity>)

  /** The string member `k`, or `""` when absent or not a string. */
  function StringMember(j: Value, k: string): (r: string)
    ensures HasMember(j, k) && GetMember(j, k).String? ==> r == GetMember(j, k).s
    ensures !(HasMember(j, k) && GetMember(j, k).String?) ==> r == ""
  {
    if HasMember(j, k) then GetString(GetMember(j, k)) else ""
  }

  /** The identifier in member `k` when present; `absent` stands for the fresh identifier the reader would use. */
  function UuidMember(j: Value, k: string, absent: Uuid): (r: Uuid)
    ensures !HasMember(j, k) ==> r == absent
  {
    if HasMember(j, k) then FromStringHex(GetString(GetMember(j, k))) else absent
  }

  // ---- components ----

  function SerializeComponent(c: PackedComponent): (r: Value)
    ensures c.jsonData.Malformed? ==> r == EMPTY_OBJECT
  {
    Parse(c.jsonData)
  }

  function DeserializeComponent(j: Value): (c: PackedComponent)
    ensures Writable(j) ==> c.jsonData == Written(j)
    ensures !Writable(j) ==> c.jsonData.Malformed?
    ensures HasMember(j, TAG_TYPE) && GetMember(j, TAG_TYPE).String? ==> c.componentTypeName == GetMember(j, TAG_TYPE).s
    ensures !(HasMember(j, TAG_TYPE) && GetMember(j, TAG_TYPE).String?) ==> c.componentTypeName == ""
  {
    PackedComponent(GetString(GetMember(j, TAG_TYPE)), Write(j))
  }

  /**
   * A component already in the form reading produces: fully written text,
   * every double in it finite, whose "type" member is its type name.
   */
  predicate NormalComponent(c: PackedComponent)
  {
    c.jsonData.Written? && Writable(c.jsonData.doc) && StringMember(c.jsonData.doc, TAG_TYPE) == c.componentTypeName
  }

  /**
   * Reading a value as a component and writing it back gives the same
   * value when its doubles are finite; otherwise the text is cut off and
   * reads back as `{}`.
   */
  lemma ComponentValueRoundTrip(j: Value)
    ensures Writable(j) ==> SerializeComponent(DeserializeComponent(j)) == j
    ensures !Writable(j) ==> SerializeComponent(DeserializeComponent(j)) == EMPTY_OBJECT
  {
  }

  /** A component survives writing and reading exactly when it is in normal form. */
  lemma ComponentRoundTrip(c: PackedComponent)
    ensures DeserializeComponent(SerializeComponent(c)) == c <==> NormalComponent(c)
  {
  }

  // ---- entities ----

  function TagValues(tags: seq<string>): (r: seq<Value>)
  {
    seq(|tags|, i requires 0 <= i < |tags| => String(tags[i]))
  }

  function ComponentValues(cs: seq<PackedComponent>): (r: seq<Value>)
  {
    seq(|cs|, i requires 0 <= i < |cs| => SerializeComponent(cs[i]))
  }

  function EntityValues(es: seq<PackedEntity>): (r: seq<Value>)
    decreases es, 2
  {
    seq(|es|, i requires 0 <= i < |es| => SerializeEntity(es[i]))
  }

  /** The members an entity is written as, in the order they are added. */
  function EntityMembers(e: PackedEntity): (ms: seq<Member>)
    ensures |ms| == 6
    decreases e, 0
  {
    [Member(TAG_UUID, String(ToStringHex(e.uuid))),
     Member(TAG_NAME, String(e.name)),
     Member(TAG_ENABLED, Bool(e.enabled)),
     Member(TAG_TAGS, Array(TagValues(e.tags))),
     Member(TAG_CHILDREN, Array(EntityValues(e.children))),
     Member(TAG_COMPONENTS, Array(ComponentValues(e.components)))]
  }

  /** An empty object with every member of the entity added in turn. */
  function SerializeEntity(e: PackedEntity): (r: Value)
    decreases e, 1
  {
    WithMembers(EMPTY_OBJECT, EntityMembers(e))
  }

  /** The strings of an array of tags; nothing when the value is not an array. */
  function TagsFrom(arr: Value): (r: seq<string>)
  {
    if IsArray(arr) then seq(|arr.items|, i requires 0 <= i < |arr.items| => GetString(arr.items[i])) else []
  }

  function ComponentsFrom(arr: Value): (r: seq<PackedComponent>)
  {
    if IsArray(arr) then seq(|arr.items|, i requires 0 <= i < |arr.items| => DeserializeComponent(arr.items[i])) else []
  }

  function EntitiesFrom(arr: Value, absentId: Uuid): (r: seq<PackedEntity>)
    decreases arr
  {
    if IsArray(arr) then seq(|arr.items|, i requires 0 <= i < |arr.items| => DeserializeEntity(arr.items[i], absentId)) else []
  }

  /**
   * Reads an entity. Missing fields keep their defaults: `absentId` for the
   * identifier, `""`, no tags, children or components, and `false` for the
   * flag the source leaves unset.
   */
  function DeserializeEntity(j: Value, absentId: Uuid): (e: PackedEntity)
    ensures !HasMember(j, TAG_UUID) ==> e.uuid == absentId
    ensures !HasMember(j, TAG_NAME) ==> e.name == ""
    ensures !HasMember(j, TAG_ENABLED) ==> !e.enabled
    ensures !HasMember(j, TAG_TAGS) ==> e.tags == []
    ensures !HasMember(j, TAG_CHILDREN) ==> e.children == []
    ensures !HasMember(j, TAG_COMPONENTS) ==> e.components == []
    decreases j
  {
    PackedEntity(
      UuidMember(j, TAG_UUID, absentId),
      StringMember(j, TAG_NAME),
      if HasMember(j, TAG_TAGS) then TagsFrom(GetMember(j, TAG_TAGS)) else [],
      HasMember(j, TAG_ENABLED) && GetBool(GetMember(j, TAG_ENABLED)),
      if HasMember(j, TAG_COMPONENTS) then ComponentsFrom(GetMember(j, TAG_COMPONENTS)) else [],
      if HasMember(j, TAG_CHILDREN) then EntitiesFrom(GetMember(j, TAG_CHILDREN), absentId) else [])
  }

  /** Every component of the entity and of all its descendants is in normal form. */
  predicate NormalEntity(e: PackedEntity)
  {
    (forall i :: 0 <= i < |e.components| ==> NormalComponent(e.components[i]))
    && (forall i :: 0 <= i < |e.children| ==> NormalEntity(e.children[i]))
  }

  /**
   * The written entity is an object with exactly the members uuid (as hex
   * text), name, enabled, tags, children and components, in this order, and
   * each is found by its key.
   */
  lemma SerializeEntityShape(e: PackedEntity)
    ensures SerializeEntity(e) == Object(EntityMembers(e))
    ensures forall i :: 0 <= i < 6 ==> GetMember(SerializeEntity(e), EntityMembers(e)[i].key) == EntityMembers(e)[i].value
    ensures forall i :: 0 <= i < 6 ==> HasMember(SerializeEntity(e), EntityMembers(e)[i].key)
  {
    EntityKeysDistinct(e);
    WrittenObject(EntityMembers(e));
  }

  lemma EntityKeysDistinct(e: PackedEntity)
    ensures DistinctKeys(EntityMembers(e))
  {
    assert TAG_UUID[0] != TAG_NAME[0];
  }

  /** The scalar fields and the three lists read back from a written entity. */
  lemma ReadEntityParts(e: PackedEntity, absentId: Uuid)
    ensures UuidMember(SerializeEntity(e), TAG_UUID, absentId) == e.uuid
    ensures StringMember(SerializeEntity(e), TAG_NAME) == e.name
    ensures HasMember(SerializeEntity(e), TAG_ENABLED) && GetBool(GetMember(SerializeEntity(e), TAG_ENABLED)) == e.enabled
    ensures HasMember(SerializeEntity(e), TAG_TAGS) && GetMember(SerializeEntity(e), TAG_TAGS) == Array(TagValues(e.tags))
    ensures HasMember(SerializeEntity(e), TAG_CHILDREN) && GetMember(SerializeEntity(e), TAG_CHILDREN) == Array(EntityValues(e.children))
    ensures HasMember(SerializeEntity(e), TAG_COMPONENTS) && GetMember(SerializeEntity(e), TAG_COMPONENTS) == Array(ComponentValues(e.components))
  {
    SerializeEntityShape(e);
    var ms := EntityMembers(e);
    assert ms[0].key == TAG_UUID && ms[1].key == TAG_NAME && ms[2].key == TAG_ENABLED;
    assert ms[3].key == TAG_TAGS && ms[4].key == TAG_CHILDREN && ms[5].key == TAG_COMPONENTS;
    HexRoundTrip(e.uuid);
  }

  lemma ComponentsRoundTrip(cs: seq<PackedComponent>)
    requires forall i :: 0 <= i < |cs| ==> NormalComponent(cs[i])
    ensures ComponentsFrom(Array(ComponentValues(cs))) == cs
  {
    forall i | 0 <= i < |cs|
      ensures ComponentsFrom(Array(ComponentValues(cs)))[i] == cs[i]
    {
      ComponentRoundTrip(cs[i]);
    }
  }

  /** Writing then reading an entity in normal form gives it back, with tag, child and component order kept. */
  lemma {:induction false} EntityRoundTrip(e: PackedEntity, absentId: Uuid)
    requires NormalEntity(e)
    ensures DeserializeEntity(SerializeEntity(e), absentId) == e
    decreases e, 1
  {
    ReadEntityParts(e, absentId);
    assert TagsFrom(Array(TagValues(e.tags))) == e.tags;
    ComponentsRoundTrip(e.components);
    EntitiesRoundTrip(e.children, absentId);
  }

  /** Writing then reading a list of entities in normal form gives it back in order. */
  lemma {:induction false} EntitiesRoundTrip(es: seq<PackedEntity>, absentId: Uuid)
    requires forall i :: 0 <= i < |es| ==> NormalEntity(es[i])
    ensures EntitiesFrom(Array(EntityValues(es)), absentId) == es
    decreases es, 0
  {
    forall i | 0 <= i < |es|
      ensures EntitiesFrom(Array(EntityValues(es)), absentId)[i] == es[i]
    {
      EntityRoundTrip(es[i], absentId);
    }
  }

  // ---- external dependencies ----

  function DependencyMembers(dep: PackedExternalDependency): (ms: seq<Member>)
  {
    [Member(TAG_UUID, String(ToStringHex(dep.uuid))), Member(TAG_DEPENDENCY_TYPE, String(dep.typeName))]
  }

  function SerializeDependency(dep: PackedExternalDependency): (r: Value)
  {
    WithMembers(EMPTY_OBJECT, DependencyMembers(dep))
  }

  function DeserializeDependency(j: Value, absentId: Uuid): (dep: PackedExternalDependency)
    ensures !HasMember(j, TAG_UUID) ==> dep.uuid == absentId
    ensures !HasMember(j, TAG_DEPENDENCY_TYPE) ==> dep.typeName == ""
  {
    PackedExternalDependency(UuidMember(j, TAG_UUID, absentId), StringMember(j, TAG_DEPENDENCY_TYPE))
  }

  /** A dependency is written as exactly its uuid (hex text) and type, and reads back unchanged. */
  lemma DependencyRoundTrip(dep: PackedExternalDependency, absentId: Uuid)
    ensures SerializeDependency(dep) == Object([
      Member(TAG_UUID, String(ToStringHex(dep.uuid))), Member(TAG_DEPENDENCY_TYPE, String(dep.typeName))])
    ensures DeserializeDependency(SerializeDependency(dep), absentId) == dep
  {
    var ms := DependencyMembers(dep);
    assert TAG_UUID[0] != TAG_DEPENDENCY_TYPE[0];
    WithFreshMembers([], ms);
    assert [] + ms == ms;
    GetDistinctMember(ms, 0);
    GetDistinctMember(ms, 1);
    HexRoundTrip(dep.uuid);
  }

  // ---- metadata ----

  function MetadataMembers(m: PackedSceneMetadata): (ms: seq<Member>)
  {
    [Member(TAG_EDITORVERSION, String(m.editorVersion)),
     Member(TAG_ENGINEVERSION, String(m.engineVersion)),
     Member(TAG_LASTMODIFIED, String(m.lastModified)),
     Member(TAG_AUTHOR, String(m.author))]
  }

  function SerializeMetadata(m: PackedSceneMetadata): (r: Value)
  {
    WithMembers(EMPTY_OBJECT, MetadataMembers(m))
  }

  function DeserializeMetadata(j: Value): (m: PackedSceneMetadata)
    ensures !HasMember(j, TAG_EDITORVERSION) ==> m.editorVersion == ""
    ensures !HasMember(j, TAG_ENGINEVERSION) ==> m.engineVersion == ""
    ensures !HasMember(j, TAG_LASTMODIFIED) ==> m.lastModified == ""
    ensures !HasMember(j, TAG_AUTHOR) ==> m.author == ""
  {
    PackedSceneMetadata(
      StringMember(j, TAG_EDITORVERSION),
      StringMember(j, TAG_ENGINEVERSION),
      StringMember(j, TAG_LASTMODIFIED),
      StringMember(j, TAG_AUTHOR))
  }

  /** Metadata is always written with all four fields, and reads back unchanged. */
  lemma MetadataRoundTrip(m: PackedSceneMetadata)
    ensures SerializeMetadata(m) == Object([
      Member(TAG_EDITORVERSION, String(m.editorVersion)),
      Member(TAG_ENGINEVERSION, String(m.engineVersion)),
      Member(TAG_LASTMODIFIED, String(m.lastModified)),
      Member(TAG_AUTHOR, String(m.author))])
    ensures DeserializeMetadata(SerializeMetadata(m)) == m
  {
    var ms := MetadataMembers(m);
    MetadataKeysDistinct(m);
    WrittenObject(ms);
    assert ms[0].key == TAG_EDITORVERSION && ms[1].key == TAG_ENGINEVERSION;
    assert ms[2].key == TAG_LASTMODIFIED && ms[3].key == TAG_AUTHOR;
  }

  lemma MetadataKeysDistinct(m: PackedSceneMetadata)
    ensures DistinctKeys(MetadataMembers(m))
  {
    assert TAG_EDITORVERSION[1] != TAG_ENGINEVERSION[1];
  }

  // ---- scenes ----

  function DependencyValues(deps: seq<PackedExternalDependency>): (r: seq<Value>)
  {
    seq(|deps|, i requires 0 <= i < |deps| => SerializeDependency(deps[i]))
  }

  function DependenciesFrom(arr: Value, absentId: Uuid): (r: seq<PackedExternalDependency>)
  {
    if IsArray(arr) then seq(|arr.items|, i requires 0 <= i < |arr.items| => DeserializeDependency(arr.items[i], absentId)) else []
  }

  function SceneMembers(s: PackedScene): (ms: seq<Member>)
    ensures |ms| == 5
  {
    [Member(TAG_SCENEUUID, String(ToStringHex(s.uuid))),
     Member(TAG_SCENENAME, String(s.name)),
     Member(TAG_METADATA, SerializeMetadata(s.metadata)),
     Member(TAG_EXTERNALDEPENDENCIES, Array(DependencyValues(s.externalDependencies))),
     Member(TAG_ENTITIES, Array(EntityValues(s.entities)))]
  }

  function SerializeScene(s: PackedScene): (r: Value)
  {
    WithMembers(EMPTY_OBJECT, SceneMembers(s))
  }

  /** Reads a scene; `absentId` stands for the fresh identifier given to anything read without one. */
  function DeserializeScene(j: Value, absentId: Uuid): (s: PackedScene)
    ensures !HasMember(j, TAG_SCENEUUID) ==> s.uuid == absentId
    ensures !HasMember(j, TAG_SCENENAME) ==> s.name == ""
    ensures !HasMember(j, TAG_METADATA) ==> s.metadata == EMPTY_METADATA
    ensures !HasMember(j, TAG_EXTERNALDEPENDENCIES) ==> s.externalDependencies == []
    ensures !HasMember(j, TAG_ENTITIES) ==> s.entities == []
  {
    PackedScene(
      UuidMember(j, TAG_SCENEUUID, absentId),
      StringMember(j, TAG_SCENENAME),
      if HasMember(j, TAG_METADATA) then DeserializeMetadata(GetMember(j, TAG_METADATA)) else EMPTY_METADATA,
      if HasMember(j, TAG_EXTERNALDEPENDENCIES) then DependenciesFrom(GetMember(j, TAG_EXTERNALDEPENDENCIES), absentId) else [],
      if HasMember(j, TAG_ENTITIES) then EntitiesFrom(GetMember(j, TAG_ENTITIES), absentId) else [])
  }

  predicate NormalScene(s: PackedScene)
  {
    forall i :: 0 <= i < |s.entities| ==> NormalEntity(s.entities[i])
  }

  /**
   * The written scene is an object with exactly the members sceneUUID,
   * sceneName, metadata, externalDependencies and entities, in this order,
   * both lists in list order.
   */
  lemma SerializeSceneShape(s: PackedScene)
    ensures SerializeScene(s) == Object(SceneMembers(s))
    ensures forall i :: 0 <= i < 5 ==> GetMember(SerializeScene(s), SceneMembers(s)[i].key) == SceneMembers(s)[i].value
    ensures forall i :: 0 <= i < 5 ==> HasMember(SerializeScene(s), SceneMembers(s)[i].key)
  {
    SceneKeysDistinct(s);
    WrittenObject(SceneMembers(s));
  }

  lemma SceneKeysDistinct(s: PackedScene)
    ensures DistinctKeys(SceneMembers(s))
  {
    assert TAG_SCENEUUID[5] != TAG_SCENENAME[5] && TAG_METADATA[0] != TAG_ENTITIES[0];
  }

  /** The scalar fields and the two lists read back from a written scene. */
  lemma ReadSceneParts(s: PackedScene, absentId: Uuid)
    ensures UuidMember(SerializeScene(s), TAG_SCENEUUID, absentId) == s.uuid
    ensures StringMember(SerializeScene(s), TAG_SCENENAME) == s.name
    ensures HasMember(SerializeScene(s), TAG_METADATA) && GetMember(SerializeScene(s), TAG_METADATA) == SerializeMetadata(s.metadata)
    ensures HasMember(SerializeScene(s), TAG_EXTERNALDEPENDENCIES)
      && GetMember(SerializeScene(s), TAG_EXTERNALDEPENDENCIES) == Array(DependencyValues(s.externalDependencies))
    ensures HasMember(SerializeScene(s), TAG_ENTITIES) && GetMember(SerializeScene(s), TAG_ENTITIES) == Array(EntityValues(s.entities))
  {
    SerializeSceneShape(s);
    var ms := SceneMembers(s);
    assert ms[0].key == TAG_SCENEUUID && ms[1].key == TAG_SCENENAME && ms[2].key == TAG_METADATA;
    assert ms[3].key == TAG_EXTERNALDEPENDENCIES && ms[4].key == TAG_ENTITIES;
    HexRoundTrip(s.uuid);
  }

  lemma DependenciesRoundTrip(deps: seq<PackedExternalDependency>, absentId: Uuid)
    ensures DependenciesFrom(Array(DependencyValues(deps)), absentId) == deps
  {
    forall i | 0 <= i < |deps|
      ensures DependenciesFrom(Array(DependencyValues(deps)), absentId)[i] == deps[i]
    {
      DependencyRoundTrip(deps[i], absentId);
    }
  }

  /** Writing then reading a scene whose components are in normal form gives it back. */
  lemma SceneRoundTrip(s: PackedScene, absentId: Uuid)
    requires NormalScene(s)
    ensures DeserializeScene(SerializeScene(s), absentId) == s
  {
    ReadSceneParts(s, absentId);
    MetadataRoundTrip(s.metadata);
    DependenciesRoundTrip(s.externalDependencies, absentId);
    EntitiesRoundTrip(s.entities, absentId);
  }
}
