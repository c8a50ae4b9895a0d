/**
 * The component serializer registry: for each registered component type
 * name a serializer and a deserializer, and a table sending the unqualified
 * name of a component's reflection type to the component's type name.
 *
 * The stored functions are tokens naming the component type they were
 * registered for and, for a deserializer, how it builds the component. The
 * JSON writer they call belongs to the reflection library and is a
 * parameter; what a deserializer does to an entity is returned as an
 * `Effect` instead of being carried out.
 */
module ComponentRegistry {
  import opened Wrappers

  /** A stored serializer: it writes a value of the component type `component`. */
  datatype SerializeFn = SerializeFn(component: string)

  /**
   * A stored deserializer: a tag's only adds the tag; a component's reads
   * the JSON (as its reflection type when it has one) and sets the result.
   */
  datatype DeserializeFn =
    | TagFn(component: string)
    | ReflectedFn(component: string)
    | PlainFn(component: string)

  /** What a deserializer does to the entity it is given. */
  datatype Effect =
    | AddTag(component: string)
    | SetFromJson(component: string, viaReflectionType: bool, json: string)

  /** A component pointer; `Null` asks a serializer for a default-constructed value. */
  datatype ComponentPtr = Null | Ptr(value: nat)

  /** The serializer or deserializer's effect for the given JSON text. */
  function Run(fn: DeserializeFn, json: string): (r: Effect)
    ensures r.component == fn.component
    ensures r.AddTag? <==> fn.TagFn?
    ensures r.SetFromJson? ==> r.json == json && (r.viaReflectionType <==> fn.ReflectedFn?)
  {
    match fn
    case TagFn(c) => AddTag(c)
    case ReflectedFn(c) => SetFromJson(c, true, json)
    case PlainFn(c) => SetFromJson(c, false, json)
  }

  /** The position of the last ':' in `s`, if any. */
  function LastColon(s: string): (r: Option<nat>)
    ensures r.Some? ==> r.value < |s| && s[r.value] == ':' && forall i :: r.value < i < |s| ==> s[i] != ':'
    ensures r.None? ==> forall i :: 0 <= i < |s| ==> s[i] != ':'
  {
    if s == [] then None
    else if s[|s| - 1] == ':' then Some(|s| - 1)
    else LastColon(s[..|s| - 1])
  }

  /** The unqualified name: the text after the last ':', or all of `full` when it has none. */
  function Unqualified(full: string): (r: string)
  {
    match LastColon(full)
    case None => full
    case Some(i) => full[i + 1..]
  }

  /**
   * The unqualified name contains no ':' and is what follows the
   * qualifier: `full` is a prefix that is empty or ends in ':' followed by it.
   */
  lemma UnqualifiedSuffix(full: string)
    ensures forall i :: 0 <= i < |Unqualified(full)| ==> Unqualified(full)[i] != ':'
    ensures |Unqualified(full)| <= |full|
    ensures var p := |full| - |Unqualified(full)|;
            full[p..] == Unqualified(full) && (p == 0 || full[p - 1] == ':')
    ensures (forall i :: 0 <= i < |full| ==> full[i] != ':') ==> Unqualified(full) == full
  {
    match LastColon(full)
    case None =>
    case Some(i) =>
  }

  /** The unqualified name of an unqualified name is itself. */
  lemma UnqualifiedIdempotent(full: string)
    ensures Unqualified(Unqualified(full)) == Unqualified(full)
  {
    UnqualifiedSuffix(full);
    UnqualifiedSuffix(Unqualified(full));
  }

  class ComponentSerializer {
    var serializers: map<string, SerializeFn>
    var deserializers: map<string, DeserializeFn>
    var typeAliases: map<string, string>

    /** Every stored function belongs to the type name it is stored under, and both kinds are stored together. */
    ghost predicate Valid()
      reads this
    {
      serializers.Keys == deserializers.Keys
      && (forall t :: t in serializers ==> serializers[t].component == t)
      && (forall t :: t in deserializers ==> deserializers[t].component == t)
      && (forall a :: a in typeAliases ==> typeAliases[a] in serializers)
    }

    constructor ()
      ensures serializers == map[] && deserializers == map[] && typeAliases == map[]
      ensures Valid()
    {
      serializers, deserializers, typeAliases := map[], map[], map[];
    }

    /**
     * Registers the component type `typeName`: a tag when `isTag`, and
     * with the given reflection type name when it has one, in which case
     * the reflection type's unqualified name becomes an alias of it.
     * Nothing happens when `typeName` is already an alias.
     */
    method RegisterComponent(typeName: string, isTag: bool, reflectionType: Option<string>)
      requires Valid()
      modifies this
      ensures Valid()
      ensures typeName in old(typeAliases) ==>
                serializers == old(serializers) && deserializers == old(deserializers) && typeAliases == old(typeAliases)
      ensures typeName !in old(typeAliases) ==>
                && serializers == old(serializers)[typeName := SerializeFn(typeName)]
                && deserializers == old(deserializers)[typeName :=
                     if isTag then TagFn(typeName) else if reflectionType.Some? then ReflectedFn(typeName) else PlainFn(typeName)]
                && typeAliases == (if reflectionType.Some? then old(typeAliases)[Unqualified(reflectionType.value) := typeName]
                                   else old(typeAliases))
      ensures typeName !in old(typeAliases) ==> IsRegistered(typeName)
      ensures typeName !in old(typeAliases) && reflectionType.Some? ==>
                Resolve(Unqualified(reflectionType.value)) == typeName
                && forall json :: Deserialize(Unqualified(reflectionType.value), json).Some?
                                  && Deserialize(Unqualified(reflectionType.value), json).value.component == typeName
    {
      if typeName in typeAliases {
        return;
      }
      serializers := serializers[typeName := SerializeFn(typeName)];
      if isTag {
        deserializers := deserializers[typeName := TagFn(typeName)];
      } else if reflectionType.Some? {
        deserializers := deserializers[typeName := ReflectedFn(typeName)];
      } else {
        deserializers := deserializers[typeName := PlainFn(typeName)];
      }
      if reflectionType.Some? {
        var unqualified := Unqualified(reflectionType.value);
        typeAliases := typeAliases[unqualified := typeName];
      }
    }

    /**
     * The registered serializer's output for the component (`write` is the
     * JSON writer, given the type name and the pointer); "{}" for an
     * unregistered type name.
     */
    function Serialize(typeName: string, componentPtr: ComponentPtr, write: (string, ComponentPtr) -> string): (r: string)
      reads this
      ensures typeName !in serializers ==> r == "{}"
      ensures typeName in serializers ==> r == write(serializers[typeName].component, componentPtr)
    {
      if typeName in serializers then write(serializers[typeName].component, componentPtr) else "{}"
    }

    predicate IsRegistered(typeName: string)
      reads this
    {
      typeName in serializers
    }

    /** The name a deserialization request is resolved to: its alias target, or the name itself. */
    function Resolve(typeName: string): (r: string)
      reads this
      ensures typeName in typeAliases ==> r == typeAliases[typeName]
      ensures typeName !in typeAliases ==> r == typeName
    {
      if typeName in typeAliases then typeAliases[typeName] else typeName
    }

    /**
     * What deserializing `json` as `typeName` does: the effect of the
     * deserializer registered under the resolved name, or None when there
     * is none.
     */
    function Deserialize(typeName: string, json: string): (r: Option<Effect>)
      reads this
      ensures r.Some? <==> Resolve(typeName) in deserializers
      ensures r.Some? ==> r.value == Run(deserializers[Resolve(typeName)], json)
    {
      var resolved := Resolve(typeName);
      if resolved in deserializers then Some(Run(deserializers[resolved], json)) else None
    }

    /** In a valid registry, a registered name's serializer writes that type, and an alias always deserializes. */
    lemma RegistryLookups(typeName: string, json: string)
      requires Valid()
      ensures IsRegistered(typeName) ==> forall p, w :: Serialize(typeName, p, w) == w(typeName, p)
      ensures typeName in typeAliases ==> Deserialize(typeName, json).Some?
      ensures Deserialize(typeName, json).Some? ==> Deserialize(typeName, json).value.component == Resolve(typeName)
      ensures typeName !in typeAliases ==> (Deserialize(typeName, json).Some? <==> IsRegistered(typeName))
    {
    }
  }
}
