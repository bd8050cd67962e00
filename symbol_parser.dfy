/**
 * `CodesysSymbolParser`: the object that holds the parsed document and the
 * type registry built from it, and answers `get_symbols`.
 *
 * Reading the file is not part of the model: `Parse` receives the
 * document already parsed.
 */
module SymbolParser {
  import opened Wrappers
  import opened SymbolDocument
  import opened TypeRegistry
  import opened PathResolver

  class CodesysSymbolParser {
    /** The document root, `None` until a document has been parsed. */
    var root: Option<SymbolConfiguration>
    /** The registry of user-defined types of the parsed document. */
    var userTypeDefs: Registry

    /** The registry always belongs to the parsed document. */
    ghost predicate Valid()
      reads this
    {
      root.Some? ==> userTypeDefs == RegistryOf(root.value.typeDefs)
    }

    constructor ()
      ensures Valid()
      ensures root == None && userTypeDefs == map[]
    {
      root := None;
      userTypeDefs := map[];
    }

    /** `parse`: keep the document and build its type registry. */
    method Parse(document: SymbolConfiguration)
      modifies this
      ensures Valid()
      ensures root == Some(document)
      ensures userTypeDefs == RegistryOf(document.typeDefs)
    {
      root := Some(document);
      userTypeDefs := ExtractUserTypeDefs(document.typeDefs);
    }

    /** `get_symbols`: every `NodeList` of the document resolved against the registry, in order. */
    method GetSymbols() returns (symbols: Resolved)
      requires Valid() && root.Some?
      ensures symbols == Symbols(RegistryOf(root.value.typeDefs), root.value.nodeLists)
    {
      symbols := Symbols(userTypeDefs, root.value.nodeLists);
    }
  }

  /**
   * A document with one structure type `Fault`, whose member `spare` is
   * marked `hmi_ignore`, and one declaration `Application.S1 : Fault`: the
   * only symbol is the kept member, below the declaration's path, with its
   * byte offset.
   */
  lemma FaultExample(other: OtherAttributes)
    ensures var code := UserDefElement(Some("BOOL"), Some("code"), Some(4), other, None, None);
      var spare := UserDefElement(Some("BOOL"), Some("spare"), Some(5), other, None, Some("hmi_ignore"));
      var fault := TypeUserDef(Some("Fault"), Some("Userdef"), [code, spare]);
      var s1 := Node(Some("S1"), Some("Fault"), None, []);
      var application := Node(Some("Application"), None, None, [s1]);
      var nodeList := Node(None, None, None, [application]);
      Symbols(RegistryOf([fault]), [nodeList]) == Ok([Symbol(Some("Application.S1.code"), "", Some(4))])
  {
    FaultRegistry(other);
    FaultPaths(other);
  }

  /** The declaration `Application.S1 : Fault` resolved against the registry that holds one member of `Fault`. */
  lemma FaultPaths(other: OtherAttributes)
    ensures var info := ElementInfo(Some("BOOL"), Some("code"), Some(4), other, "");
      var s1 := Node(Some("S1"), Some("Fault"), None, []);
      var application := Node(Some("Application"), None, None, [s1]);
      var nodeList := Node(None, None, None, [application]);
      Symbols(map[Some("Fault") := [info]], [nodeList]) == Ok([Symbol(Some("Application.S1.code"), "", Some(4))])
  {
    var info := ElementInfo(Some("BOOL"), Some("code"), Some(4), other, "");
    var s1 := Node(Some("S1"), Some("Fault"), None, []);
    var application := Node(Some("Application"), None, None, [s1]);
    var nodeList := Node(None, None, None, [application]);
    var defs := map[Some("Fault") := [info]];
    var leaf := Symbol(Some("Application.S1.code"), "", Some(4));
    assert NodePaths(defs, s1, Some("Application")) == Ok([leaf]) by {
      assert "Application" + "." + "S1" == "Application.S1";
      assert "Application.S1" + "." + "code" == "Application.S1.code";
      assert Some("BOOL") !in defs;
      assert LeafSymbol("Application.S1.code", info) == leaf;
      assert [leaf] + [] == [leaf];
      assert ElementsPaths(defs, [info][1..], "Application.S1", {Some("Fault")}) == Ok([]);
      assert ElementsPaths(defs, [info], "Application.S1", {Some("Fault")}) == Ok([leaf]);
      assert {} + {Some("Fault")} == {Some("Fault")};
      assert TypeElementPaths(defs, Some("Fault"), "Application.S1", {}) == Ok([leaf]);
    }
    assert [] + [leaf] == [leaf] && [leaf] + [] == [leaf];
    assert ChildrenPaths(defs, [s1], Some("Application")) == Ok([leaf]);
    assert NodePath(None, Some("Application")) == Some("Application");
    assert None !in defs;
    assert TypeElementPaths(defs, None, "Application", {}) == Ok([]);
    assert NodePaths(defs, application, None) == Ok([leaf]);
    assert ChildrenPaths(defs, [application], None) == Ok([leaf]);
    assert NodePaths(defs, nodeList, Some("")) == Ok([leaf]);
    assert [nodeList][1..] == [];
    assert ChildrenPaths(defs, [nodeList], Some("")) == Ok([leaf]);
  }

  /** The registry of the `Fault` document holds the one kept member. */
  lemma FaultRegistry(other: OtherAttributes)
    ensures var code := UserDefElement(Some("BOOL"), Some("code"), Some(4), other, None, None);
      var spare := UserDefElement(Some("BOOL"), Some("spare"), Some(5), other, None, Some("hmi_ignore"));
      var fault := TypeUserDef(Some("Fault"), Some("Userdef"), [code, spare]);
      RegistryOf([fault]) == map[Some("Fault") := [ElementInfo(Some("BOOL"), Some("code"), Some(4), other, "")]]
  {
    var code := UserDefElement(Some("BOOL"), Some("code"), Some(4), other, None, None);
    var spare := UserDefElement(Some("BOOL"), Some("spare"), Some(5), other, None, Some("hmi_ignore"));
    var fault := TypeUserDef(Some("Fault"), Some("Userdef"), [code, spare]);
    IgnoreKeyAlone("hmi_ignore");
    assert IsIgnored(spare);
    var info := ElementInfoOf(code);
    assert info == ElementInfo(Some("BOOL"), Some("code"), Some(4), other, "");
    assert [code, spare][..1] == [code] && [code][..0] == [];
    assert ElementInfos([code]) == [info];
    assert ElementInfos([code, spare]) == [info];
    assert [fault][..0] == [];
    assert IsUserdef(fault);
    assert RegistryOf([fault]) == RegistryOf([])[Some("Fault") := ElementInfos([code, spare])];
  }
}
