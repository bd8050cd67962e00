/**
 * The type registry: `_extract_usertype_defs` maps the name of every
 * user-defined type to the ordered list of its members, leaving out the
 * members marked `hmi_ignore`.
 */
module TypeRegistry {
  import opened Wrappers
  import opened Strings
  import opened SymbolDocument

  /** The `element_info` record kept for one member: its attributes and its parsed comment. */
  datatype ElementInfo = ElementInfo(
    typeName: Option<string>,
    iecName: Option<string>,
    byteOffset: Option<nat>,
    other: OtherAttributes,
    comment: string)

  /**
   * The registry, keyed by the `name` attribute of each definition (which
   * the document may omit, hence an optional key).
   */
  type Registry = map<Option<string>, seq<ElementInfo>>

  /** Enumerations are `TypeUserDef` elements too; only this class is registered. */
  const UserdefClass: string := "Userdef"

  predicate IsUserdef(d: TypeUserDef) {
    d.typeClass == Some(UserdefClass)
  }

  function ElementInfoOf(e: UserDefElement): ElementInfo {
    ElementInfo(e.typeName, e.iecName, e.byteOffset, e.other, ParseComment(e.comment))
  }

  /** The members a definition keeps: the non-ignored ones, in document order. */
  function ElementInfos(es: seq<UserDefElement>): seq<ElementInfo> {
    if es == [] then []
    else
      var last := es[|es| - 1];
      ElementInfos(es[..|es| - 1]) + (if IsIgnored(last) then [] else [ElementInfoOf(last)])
  }

  /** The registry built from the `TypeUserDef` elements in document order; a later definition of a name replaces an earlier one. */
  function RegistryOf(defs: seq<TypeUserDef>): Registry {
    if defs == [] then map[]
    else
      var registry := RegistryOf(defs[..|defs| - 1]);
      var d := defs[|defs| - 1];
      if IsUserdef(d) then registry[d.name := ElementInfos(d.elements)] else registry
  }

  /** `_extract_usertype_defs`, over the `TypeUserDef` elements of the document. */
  method ExtractUserTypeDefs(typeDefs: seq<TypeUserDef>) returns (types: Registry)
    ensures types == RegistryOf(typeDefs)
  {
    types := map[];
    var i := 0;
    while i < |typeDefs|
      invariant 0 <= i <= |typeDefs|
      invariant types == RegistryOf(typeDefs[..i])
    {
      var typeDef := typeDefs[i];
      assert typeDefs[..i + 1][..i] == typeDefs[..i];
      if IsUserdef(typeDef) {
        var elements: seq<ElementInfo> := [];
        var j := 0;
        while j < |typeDef.elements|
          invariant 0 <= j <= |typeDef.elements|
          invariant elements == ElementInfos(typeDef.elements[..j])
        {
          var element := typeDef.elements[j];
          assert typeDef.elements[..j + 1][..j] == typeDef.elements[..j];
          var attribute := ParseAttribute(element.attribute);
          if attribute.Some? && attribute.value[0] == IgnoreKey {
            j := j + 1;
            continue;
          }
          elements := elements + [ElementInfoOf(element)];
          j := j + 1;
        }
        assert typeDef.elements[..j] == typeDef.elements;
        types := types[typeDef.name := elements];
      }
      i := i + 1;
    }
    assert typeDefs[..i] == typeDefs;
  }

  /** Filtering keeps document order: the members of `a + b` are those of `a`, then those of `b`. */
  lemma {:induction false} ElementInfosAppend(a: seq<UserDefElement>, b: seq<UserDefElement>)
    ensures ElementInfos(a + b) == ElementInfos(a) + ElementInfos(b)
    decreases |b|
  {
    if b == [] {
      assert a + b == a;
    } else {
      var b0 := b[..|b| - 1];
      ElementInfosAppend(a, b0);
      assert (a + b)[..|a + b| - 1] == a + b0;
      assert (a + b)[|a + b| - 1] == b[|b| - 1];
    }
  }

  /** Every kept member comes from a member of the definition that is not ignored. */
  lemma {:induction false} ElementInfosAreKept(es: seq<UserDefElement>)
    ensures forall x | x in ElementInfos(es) :: exists e | e in es :: !IsIgnored(e) && x == ElementInfoOf(e)
    ensures forall e | e in es && !IsIgnored(e) :: ElementInfoOf(e) in ElementInfos(es)
    decreases |es|
  {
    if es != [] {
      var init := es[..|es| - 1];
      ElementInfosAreKept(init);
      forall x | x in ElementInfos(es)
        ensures exists e | e in es :: !IsIgnored(e) && x == ElementInfoOf(e)
      {
        if x in ElementInfos(init) {
          var e :| e in init && !IsIgnored(e) && x == ElementInfoOf(e);
          assert e in es;
        } else {
          assert es[|es| - 1] in es;
        }
      }
      forall e | e in es && !IsIgnored(e)
        ensures ElementInfoOf(e) in ElementInfos(es)
      {
        if e != es[|es| - 1] {
          assert es == init + [es[|es| - 1]];
          assert e in init;
        }
      }
    }
  }

  /** A name is registered exactly when some `Userdef` definition carries it. */
  lemma {:induction false} RegistryKeys(defs: seq<TypeUserDef>, name: Option<string>)
    ensures name in RegistryOf(defs) <==>
      exists i | 0 <= i < |defs| :: IsUserdef(defs[i]) && defs[i].name == name
    decreases |defs|
  {
    if defs != [] {
      var init := defs[..|defs| - 1];
      RegistryKeys(init, name);
      if exists i | 0 <= i < |init| :: IsUserdef(init[i]) && init[i].name == name {
        var i :| 0 <= i < |init| && IsUserdef(init[i]) && init[i].name == name;
        assert defs[i] == init[i];
      }
      if exists i | 0 <= i < |defs| :: IsUserdef(defs[i]) && defs[i].name == name {
        var i :| 0 <= i < |defs| && IsUserdef(defs[i]) && defs[i].name == name;
        if i < |init| {
          assert init[i] == defs[i];
        }
      }
    }
  }

  /** Last definition wins: the entry of a name holds the members of its last `Userdef` definition. */
  lemma {:induction false} RegistryLastWins(defs: seq<TypeUserDef>, i: nat)
    requires i < |defs| && IsUserdef(defs[i])
    requires forall j | i < j < |defs| :: IsUserdef(defs[j]) ==> defs[j].name != defs[i].name
    ensures defs[i].name in RegistryOf(defs)
    ensures RegistryOf(defs)[defs[i].name] == ElementInfos(defs[i].elements)
    decreases |defs|
  {
    if i < |defs| - 1 {
      var init := defs[..|defs| - 1];
      assert init[i] == defs[i];
      RegistryLastWins(init, i);
    }
  }

  /**
   * Ignored members never reach the registry: every registered member is
   * the record of a non-ignored member of a `Userdef` definition of that name.
   */
  lemma {:induction false} RegisteredMembersAreKept(defs: seq<TypeUserDef>, name: Option<string>, x: ElementInfo)
    requires name in RegistryOf(defs) && x in RegistryOf(defs)[name]
    ensures exists i, e | 0 <= i < |defs| && e in defs[i].elements ::
      defs[i].name == name && IsUserdef(defs[i]) && !IsIgnored(e) && x == ElementInfoOf(e)
    decreases |defs|
  {
    var init := defs[..|defs| - 1];
    var d := defs[|defs| - 1];
    if IsUserdef(d) && d.name == name {
      ElementInfosAreKept(d.elements);
      var e :| e in d.elements && !IsIgnored(e) && x == ElementInfoOf(e);
      assert defs[|defs| - 1] == d;
    } else {
      RegisteredMembersAreKept(init, name, x);
      var i, e :| 0 <= i < |init| && e in init[i].elements &&
        init[i].name == name && IsUserdef(init[i]) && !IsIgnored(e) && x == ElementInfoOf(e);
      assert defs[i] == init[i];
    }
  }
}
