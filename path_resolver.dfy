/**
 * The path resolver: the two mutually independent recursions of the parser.
 * `_get_type_element_paths` walks the type graph of the registry and
 * `_get_node_paths` walks the declaration tree; `get_symbols` concatenates
 * the results of every `NodeList`.
 *
 * The source recurses through the type graph with no guard. Here every
 * expansion chain carries the set of type names it is already expanding;
 * meeting one of them again is a `CycleError`, where the source would
 * recurse until the interpreter gives up. `TypeExpansionTotal` shows that
 * on an acyclic registry the guard never fires.
 */
module PathResolver {
  import opened Wrappers
  import opened Strings
  import opened SymbolDocument
  import opened TypeRegistry

  /**
   * One emitted symbol: its dotted path, its comment and the byte offset of
   * the member it comes from. The path is `None` only where the source
   * emits the missing `name` attribute of a childless root itself.
   */
  datatype Symbol = Symbol(name: Option<string>, comment: string, byteOffset: Option<nat>)

  /** A type that contains itself, with the path at which the repetition was met. */
  datatype ResolveError = CycleError(typeName: Option<string>, path: string)

  type Resolved = Result<seq<Symbol>, ResolveError>

  /** How a Python f-string renders an optional text: a missing one prints as `None`. */
  function Show(s: Option<string>): string {
    if s.None? then "None" else s.value
  }

  /** Python truthiness of an optional text: present and non-empty. */
  predicate Truthy(s: Option<string>) {
    s.Some? && s.value != ""
  }

  /** A node's path: `parent.name`, or the bare name below an empty or missing parent. */
  function NodePath(parent: Option<string>, name: Option<string>): Option<string> {
    if Truthy(parent) then Some(parent.value + "." + Show(name)) else name
  }

  /** The symbol a member of a non-registered type becomes. */
  function LeafSymbol(path: string, e: ElementInfo): Symbol {
    Symbol(Some(path), e.comment, e.byteOffset)
  }

  /** A declaration that gets an entry of its own: no child nodes and a type that is not registered. */
  predicate IsLeafDeclaration(defs: Registry, n: Node) {
    n.children == [] && n.typeName !in defs
  }

  /** The entry a leaf declaration gets: its own path and its own parsed comment. */
  function OwnSymbol(n: Node, path: Option<string>): Symbol {
    Symbol(path, ParseComment(n.comment), None)
  }

  /**
   * `_get_type_element_paths`: the symbols of every member of `typeName`
   * below `parentPath`, expanding registered member types recursively.
   * `expanding` holds the type names of the current expansion chain.
   */
  function TypeElementPaths(defs: Registry, typeName: Option<string>, parentPath: string, expanding: set<Option<string>>): Resolved
    decreases defs.Keys - expanding, 0
  {
    if typeName !in defs then Ok([])
    else if typeName in expanding then Err(CycleError(typeName, parentPath))
    else ElementsPaths(defs, defs[typeName], parentPath, expanding + {typeName})
  }

  /** The loop of `_get_type_element_paths` over the members `es`. */
  function ElementsPaths(defs: Registry, es: seq<ElementInfo>, parentPath: string, expanding: set<Option<string>>): Resolved
    decreases defs.Keys - expanding, |es|
  {
    if es == [] then Ok([])
    else
      var e := es[0];
      var path := parentPath + "." + Show(e.iecName);
      var head := if e.typeName !in defs then Ok([LeafSymbol(path, e)])
                  else TypeElementPaths(defs, e.typeName, path, expanding);
      Concat(head, ElementsPaths(defs, es[1..], parentPath, expanding))
  }

  /**
   * `_get_node_paths`: the type expansion of the node first, then either its
   * own entry (a leaf declaration) or the symbols of its children.
   */
  function NodePaths(defs: Registry, n: Node, parent: Option<string>): Resolved
    decreases n
  {
    var path := NodePath(parent, n.name);
    var typePaths := TypeElementPaths(defs, n.typeName, Show(path), {});
    if IsLeafDeclaration(defs, n) then Concat(typePaths, Ok([OwnSymbol(n, path)]))
    else Concat(typePaths, ChildrenPaths(defs, n.children, path))
  }

  /** The loop of `_get_node_paths` over the child nodes, in document order. */
  function ChildrenPaths(defs: Registry, nodes: seq<Node>, parent: Option<string>): Resolved
    decreases nodes
  {
    if nodes == [] then Ok([])
    else Concat(NodePaths(defs, nodes[0], parent), ChildrenPaths(defs, nodes[1..], parent))
  }

  /** `get_symbols`: every `NodeList`, resolved from the default empty prefix, concatenated in order. */
  function Symbols(defs: Registry, nodeLists: seq<Node>): Resolved {
    ChildrenPaths(defs, nodeLists, Some(""))
  }

  // ---------------------------------------------------------------------
  // Type expansion: which paths it emits.

  /**
   * A chain of members starting in the member list `es`: each member's type
   * is registered and the next member belongs to it, except the last one,
   * whose type is not registered.
   */
  ghost predicate IsChainFrom(defs: Registry, es: seq<ElementInfo>, chain: seq<ElementInfo>)
    ensures IsChainFrom(defs, es, chain) ==> chain != []
    decreases |chain|, 0
  {
    |chain| >= 1 && chain[0] in es &&
    if |chain| == 1 then chain[0].typeName !in defs
    else IsMemberChain(defs, chain[0].typeName, chain[1..])
  }

  /** A member chain through the registered type `typeName`. */
  ghost predicate IsMemberChain(defs: Registry, typeName: Option<string>, chain: seq<ElementInfo>)
    ensures IsMemberChain(defs, typeName, chain) ==> chain != []
    decreases |chain|, 1
  {
    typeName in defs && IsChainFrom(defs, defs[typeName], chain)
  }

  /** The path of a member chain below `parent`: the member names appended with dots. */
  function ChainPath(parent: string, chain: seq<ElementInfo>): string
    decreases |chain|
  {
    if chain == [] then parent else ChainPath(parent + "." + Show(chain[0].iecName), chain[1..])
  }

  /**
   * Type expansion of an unregistered name is empty, and every symbol it
   * emits is the leaf of a member chain through the type, at the chain's
   * path and with the last member's comment and byte offset.
   */
  lemma {:induction false} TypeExpansionSound(defs: Registry, typeName: Option<string>, parentPath: string, expanding: set<Option<string>>)
    requires TypeElementPaths(defs, typeName, parentPath, expanding).Ok?
    ensures typeName !in defs ==> TypeElementPaths(defs, typeName, parentPath, expanding) == Ok([])
    ensures forall sym | sym in TypeElementPaths(defs, typeName, parentPath, expanding).value ::
      exists chain :: IsMemberChain(defs, typeName, chain) && sym == LeafSymbol(ChainPath(parentPath, chain), chain[|chain| - 1])
    decreases defs.Keys - expanding, 0
  {
    if typeName in defs && typeName !in expanding {
      ElementsExpansionSound(defs, defs[typeName], parentPath, expanding + {typeName});
    }
  }

  lemma {:induction false} ElementsExpansionSound(defs: Registry, es: seq<ElementInfo>, parentPath: string, expanding: set<Option<string>>)
    requires ElementsPaths(defs, es, parentPath, expanding).Ok?
    ensures forall sym | sym in ElementsPaths(defs, es, parentPath, expanding).value ::
      exists chain :: IsChainFrom(defs, es, chain) && sym == LeafSymbol(ChainPath(parentPath, chain), chain[|chain| - 1])
    decreases defs.Keys - expanding, |es|
  {
    if es != [] {
      var e := es[0];
      var path := parentPath + "." + Show(e.iecName);
      var r := ElementsPaths(defs, es, parentPath, expanding).value;
      var tail := ElementsPaths(defs, es[1..], parentPath, expanding);
      ElementsExpansionSound(defs, es[1..], parentPath, expanding);
      if e.typeName !in defs {
        forall sym | sym in r
          ensures exists chain :: IsChainFrom(defs, es, chain) && sym == LeafSymbol(ChainPath(parentPath, chain), chain[|chain| - 1])
        {
          if sym == LeafSymbol(path, e) {
            var chain := [e];
            assert ChainPath(parentPath, chain) == ChainPath(path, []);
            assert IsChainFrom(defs, es, chain);
          } else {
            assert sym in tail.value;
            var chain: seq<ElementInfo> :| IsChainFrom(defs, es[1..], chain) && sym == LeafSymbol(ChainPath(parentPath, chain), chain[|chain| - 1]);
            assert IsChainFrom(defs, es, chain);
          }
        }
      } else {
        var sub := TypeElementPaths(defs, e.typeName, path, expanding);
        TypeExpansionSound(defs, e.typeName, path, expanding);
        forall sym | sym in r
          ensures exists chain :: IsChainFrom(defs, es, chain) && sym == LeafSymbol(ChainPath(parentPath, chain), chain[|chain| - 1])
        {
          if sym in sub.value {
            var rest: seq<ElementInfo> :| IsMemberChain(defs, e.typeName, rest) && sym == LeafSymbol(ChainPath(path, rest), rest[|rest| - 1]);
            var chain := [e] + rest;
            assert chain[1..] == rest;
            assert ChainPath(parentPath, chain) == ChainPath(path, rest);
            assert IsChainFrom(defs, es, chain);
          } else {
            assert sym in tail.value;
            var chain: seq<ElementInfo> :| IsChainFrom(defs, es[1..], chain) && sym == LeafSymbol(ChainPath(parentPath, chain), chain[|chain| - 1]);
            assert IsChainFrom(defs, es, chain);
          }
        }
      }
    }
  }

  /**
   * The converse of `TypeExpansionSound`: when the expansion succeeds, the
   * leaf of every member chain through the type is emitted, however deep the
   * chain goes.
   */
  lemma {:induction false} TypeExpansionComplete(defs: Registry, typeName: Option<string>, parentPath: string, expanding: set<Option<string>>, chain: seq<ElementInfo>)
    requires TypeElementPaths(defs, typeName, parentPath, expanding).Ok?
    requires IsMemberChain(defs, typeName, chain)
    ensures LeafSymbol(ChainPath(parentPath, chain), chain[|chain| - 1]) in TypeElementPaths(defs, typeName, parentPath, expanding).value
    decreases defs.Keys - expanding, 0, |chain|
  {
    assert typeName !in expanding;
    ElementsExpansionComplete(defs, defs[typeName], parentPath, expanding + {typeName}, chain);
  }

  lemma {:induction false} ElementsExpansionComplete(defs: Registry, es: seq<ElementInfo>, parentPath: string, expanding: set<Option<string>>, chain: seq<ElementInfo>)
    requires ElementsPaths(defs, es, parentPath, expanding).Ok?
    requires IsChainFrom(defs, es, chain)
    ensures LeafSymbol(ChainPath(parentPath, chain), chain[|chain| - 1]) in ElementsPaths(defs, es, parentPath, expanding).value
    decreases defs.Keys - expanding, |es|, |chain|
  {
    var e := es[0];
    var path := parentPath + "." + Show(e.iecName);
    var r := ElementsPaths(defs, es, parentPath, expanding).value;
    var tail := ElementsPaths(defs, es[1..], parentPath, expanding);
    var leaf := LeafSymbol(ChainPath(parentPath, chain), chain[|chain| - 1]);
    if chain[0] != e {
      assert chain[0] in es[1..];
      ElementsExpansionComplete(defs, es[1..], parentPath, expanding, chain);
      assert leaf in tail.value;
    } else if |chain| == 1 {
      assert ChainPath(parentPath, chain) == ChainPath(path, []);
      assert r[0] == leaf;
    } else {
      var sub := TypeElementPaths(defs, e.typeName, path, expanding);
      assert ChainPath(parentPath, chain) == ChainPath(path, chain[1..]);
      TypeExpansionComplete(defs, e.typeName, path, expanding, chain[1..]);
      assert chain[1..][|chain[1..]| - 1] == chain[|chain| - 1];
      assert r == sub.value + tail.value;
    }
  }

  /**
   * Expansion emits exactly the leaves of the member chains through the
   * type: a symbol is emitted if and only if it is such a leaf.
   */
  lemma TypeExpansionExact(defs: Registry, typeName: Option<string>, parentPath: string, expanding: set<Option<string>>)
    requires TypeElementPaths(defs, typeName, parentPath, expanding).Ok?
    ensures forall sym :: sym in TypeElementPaths(defs, typeName, parentPath, expanding).value <==>
      exists chain :: IsMemberChain(defs, typeName, chain) && sym == LeafSymbol(ChainPath(parentPath, chain), chain[|chain| - 1])
  {
    TypeExpansionSound(defs, typeName, parentPath, expanding);
    forall sym, chain | IsMemberChain(defs, typeName, chain) && sym == LeafSymbol(ChainPath(parentPath, chain), chain[|chain| - 1])
      ensures sym in TypeElementPaths(defs, typeName, parentPath, expanding).value
    {
      TypeExpansionComplete(defs, typeName, parentPath, expanding, chain);
    }
  }

  /**
   * Members are expanded depth first and in member order: the symbols of
   * `a + b` are all those of `a` followed by all those of `b`.
   */
  lemma {:induction false} ElementsPathsAppend(defs: Registry, a: seq<ElementInfo>, b: seq<ElementInfo>, parentPath: string, expanding: set<Option<string>>)
    ensures ElementsPaths(defs, a + b, parentPath, expanding) ==
      Concat(ElementsPaths(defs, a, parentPath, expanding), ElementsPaths(defs, b, parentPath, expanding))
    decreases |a|
  {
    if a == [] {
      assert a + b == b;
      ConcatEmpty(ElementsPaths(defs, b, parentPath, expanding));
    } else {
      var e := a[0];
      var path := parentPath + "." + Show(e.iecName);
      var head := if e.typeName !in defs then Ok([LeafSymbol(path, e)])
                  else TypeElementPaths(defs, e.typeName, path, expanding);
      assert (a + b)[0] == e;
      assert (a + b)[1..] == a[1..] + b;
      ElementsPathsAppend(defs, a[1..], b, parentPath, expanding);
      ConcatAssociative(head, ElementsPaths(defs, a[1..], parentPath, expanding), ElementsPaths(defs, b, parentPath, expanding));
    }
  }

  /**
   * What a member chain is: it starts in `es`, each member's type is a
   * registered type holding the next member, and the last member's type is
   * not registered.
   */
  lemma {:induction false} ChainShape(defs: Registry, es: seq<ElementInfo>, chain: seq<ElementInfo>)
    requires IsChainFrom(defs, es, chain)
    ensures chain[0] in es
    ensures chain[|chain| - 1].typeName !in defs
    ensures forall k | 0 <= k < |chain| - 1 ::
      chain[k].typeName in defs && chain[k + 1] in defs[chain[k].typeName]
    decreases |chain|
  {
    if |chain| > 1 {
      var rest := chain[1..];
      ChainShape(defs, defs[chain[0].typeName], rest);
      forall k | 1 <= k < |chain| - 1
        ensures chain[k].typeName in defs && chain[k + 1] in defs[chain[k].typeName]
      {
        assert chain[k] == rest[k - 1] && chain[k + 1] == rest[k];
      }
    }
  }

  /** Every path of a non-empty chain starts with the parent, a dot and the first member's name. */
  lemma {:induction false} ChainPathStartsWith(parent: string, chain: seq<ElementInfo>)
    requires chain != []
    ensures StartsWith(ChainPath(parent, chain), parent + "." + Show(chain[0].iecName))
  {
    ChainPathExtends(parent + "." + Show(chain[0].iecName), chain[1..]);
  }

  lemma {:induction false} ChainPathExtends(parent: string, chain: seq<ElementInfo>)
    ensures StartsWith(ChainPath(parent, chain), parent)
    decreases |chain|
  {
    if chain != [] {
      var next := parent + "." + Show(chain[0].iecName);
      ChainPathExtends(next, chain[1..]);
      StartsWithAppend(parent, "." + Show(chain[0].iecName));
      assert next == parent + ("." + Show(chain[0].iecName));
      StartsWithTransitive(ChainPath(parent, chain), next, parent);
    }
  }

  /** Every symbol of a type expansion lies strictly below the parent path. */
  lemma TypeExpansionBelow(defs: Registry, typeName: Option<string>, parentPath: string, expanding: set<Option<string>>)
    requires TypeElementPaths(defs, typeName, parentPath, expanding).Ok?
    ensures forall sym | sym in TypeElementPaths(defs, typeName, parentPath, expanding).value ::
      sym.name.Some? && StartsWith(sym.name.value, parentPath + ".")
  {
    TypeExpansionSound(defs, typeName, parentPath, expanding);
    forall sym | sym in TypeElementPaths(defs, typeName, parentPath, expanding).value
      ensures sym.name.Some? && StartsWith(sym.name.value, parentPath + ".")
    {
      var chain: seq<ElementInfo> :| IsMemberChain(defs, typeName, chain) && sym == LeafSymbol(ChainPath(parentPath, chain), chain[|chain| - 1]);
      ChainPathStartsWith(parentPath, chain);
      StartsWithAppend(parentPath + ".", Show(chain[0].iecName));
      StartsWithTransitive(sym.name.value, parentPath + "." + Show(chain[0].iecName), parentPath + ".");
    }
  }

  // ---------------------------------------------------------------------
  // Termination of the source: on an acyclic registry the guard never fires.

  /**
   * The registry's type graph is acyclic, witnessed by a rank that strictly
   * decreases from every registered type to every registered member type.
   */
  ghost predicate Ranked(defs: Registry, rank: map<Option<string>, nat>) {
    (forall t | t in defs :: t in rank) &&
    forall t, e | t in defs && e in defs[t] && e.typeName in defs :: rank[e.typeName] < rank[t]
  }

  lemma {:induction false} TypeExpansionTotal(defs: Registry, rank: map<Option<string>, nat>, typeName: Option<string>, parentPath: string, expanding: set<Option<string>>)
    requires Ranked(defs, rank)
    requires forall v | v in expanding :: v in rank
    requires typeName in defs ==> forall v | v in expanding :: rank[typeName] < rank[v]
    ensures TypeElementPaths(defs, typeName, parentPath, expanding).Ok?
    decreases defs.Keys - expanding, 0
  {
    if typeName in defs {
      assert typeName !in expanding;
      ElementsExpansionTotal(defs, rank, defs[typeName], parentPath, expanding + {typeName});
    }
  }

  lemma {:induction false} ElementsExpansionTotal(defs: Registry, rank: map<Option<string>, nat>, es: seq<ElementInfo>, parentPath: string, expanding: set<Option<string>>)
    requires Ranked(defs, rank)
    requires forall v | v in expanding :: v in rank
    requires forall e, v | e in es && e.typeName in defs && v in expanding :: rank[e.typeName] < rank[v]
    ensures ElementsPaths(defs, es, parentPath, expanding).Ok?
    decreases defs.Keys - expanding, |es|
  {
    if es != [] {
      var e := es[0];
      if e.typeName in defs {
        TypeExpansionTotal(defs, rank, e.typeName, parentPath + "." + Show(e.iecName), expanding);
      }
      ElementsExpansionTotal(defs, rank, es[1..], parentPath, expanding);
    }
  }

  /** On an acyclic registry every declaration tree resolves without error. */
  lemma {:induction false} NodePathsTotal(defs: Registry, rank: map<Option<string>, nat>, n: Node, parent: Option<string>)
    requires Ranked(defs, rank)
    ensures NodePaths(defs, n, parent).Ok?
    decreases n
  {
    var path := NodePath(parent, n.name);
    TypeExpansionTotal(defs, rank, n.typeName, Show(path), {});
    if !IsLeafDeclaration(defs, n) {
      ChildrenPathsTotal(defs, rank, n.children, path);
    }
  }

  lemma {:induction false} ChildrenPathsTotal(defs: Registry, rank: map<Option<string>, nat>, nodes: seq<Node>, parent: Option<string>)
    requires Ranked(defs, rank)
    ensures ChildrenPaths(defs, nodes, parent).Ok?
    decreases nodes
  {
    if nodes != [] {
      NodePathsTotal(defs, rank, nodes[0], parent);
      ChildrenPathsTotal(defs, rank, nodes[1..], parent);
    }
  }

  /** A type that contains, through another type, a member of its own type fails with `CycleError`. */
  lemma TwoTypeCycleFails(a: ElementInfo, b: ElementInfo)
    requires a.typeName == Some("B") && b.typeName == Some("A")
    ensures TypeElementPaths(map[Some("A") := [a], Some("B") := [b]], Some("A"), "x", {}) ==
      Err(CycleError(Some("A"), "x." + Show(a.iecName) + "." + Show(b.iecName)))
  {
    var defs := map[Some("A") := [a], Some("B") := [b]];
    var pa := "x." + Show(a.iecName);
    assert "x" + "." + Show(a.iecName) == pa;
    var pb := pa + "." + Show(b.iecName);
    var both := {Some("A"), Some("B")};
    assert {Some("A")} + {Some("B")} == both;
    assert {} + {Some("A")} == {Some("A")};
    assert defs[Some("A")] == [a] && defs[Some("B")] == [b];
    assert TypeElementPaths(defs, Some("A"), pb, both) == Err(CycleError(Some("A"), pb));
    assert ElementsPaths(defs, [b], pa, both) == Err(CycleError(Some("A"), pb));
    assert TypeElementPaths(defs, Some("B"), pa, {Some("A")}) == Err(CycleError(Some("A"), pb));
    assert ElementsPaths(defs, [a], "x", {Some("A")}) == Err(CycleError(Some("A"), pb));
  }

  // ---------------------------------------------------------------------
  // Tree expansion: paths, own entries and order.

  /** Every symbol resolved below a non-empty parent lies strictly below it. */
  lemma {:induction false} NodePathsBelow(defs: Registry, n: Node, parent: Option<string>)
    requires Truthy(parent)
    requires NodePaths(defs, n, parent).Ok?
    ensures forall sym | sym in NodePaths(defs, n, parent).value ::
      sym.name.Some? && StartsWith(sym.name.value, parent.value + ".")
    decreases n
  {
    var path := NodePath(parent, n.name);
    var prefix := parent.value + ".";
    assert path.value == prefix + Show(n.name);
    StartsWithAppend(prefix, Show(n.name));
    var typePaths := TypeElementPaths(defs, n.typeName, Show(path), {});
    TypeExpansionBelow(defs, n.typeName, Show(path), {});
    forall sym | sym in typePaths.value
      ensures StartsWith(sym.name.value, prefix)
    {
      StartsWithAppend(path.value, ".");
      StartsWithTransitive(sym.name.value, path.value + ".", path.value);
      StartsWithTransitive(sym.name.value, path.value, prefix);
    }
    if !IsLeafDeclaration(defs, n) {
      var children := ChildrenPaths(defs, n.children, path);
      ChildrenPathsBelow(defs, n.children, path);
      forall sym | sym in children.value
        ensures StartsWith(sym.name.value, prefix)
      {
        StartsWithAppend(path.value, ".");
        StartsWithTransitive(sym.name.value, path.value + ".", path.value);
        StartsWithTransitive(sym.name.value, path.value, prefix);
      }
    }
  }

  lemma {:induction false} ChildrenPathsBelow(defs: Registry, nodes: seq<Node>, parent: Option<string>)
    requires Truthy(parent)
    requires ChildrenPaths(defs, nodes, parent).Ok?
    ensures forall sym | sym in ChildrenPaths(defs, nodes, parent).value ::
      sym.name.Some? && StartsWith(sym.name.value, parent.value + ".")
    decreases nodes
  {
    if nodes != [] {
      NodePathsBelow(defs, nodes[0], parent);
      ChildrenPathsBelow(defs, nodes[1..], parent);
    }
  }

  /**
   * The type expansion comes first; a node has an entry of its own, at its
   * own path and with its own comment, exactly when it is a leaf
   * declaration; otherwise no symbol carries its path and all of them lie
   * strictly below it.
   */
  lemma OwnEntryExactlyForLeaves(defs: Registry, n: Node, parent: Option<string>)
    requires Truthy(NodePath(parent, n.name))
    requires NodePaths(defs, n, parent).Ok?
    ensures var path := NodePath(parent, n.name);
      var r := NodePaths(defs, n, parent).value;
      && TypeElementPaths(defs, n.typeName, Show(path), {}).Ok?
      && r[..|TypeElementPaths(defs, n.typeName, Show(path), {}).value|] == TypeElementPaths(defs, n.typeName, Show(path), {}).value
      && (IsLeafDeclaration(defs, n) ==> r == [OwnSymbol(n, path)])
      && (!IsLeafDeclaration(defs, n) ==>
            forall sym | sym in r :: sym.name.Some? && sym.name != path && StartsWith(sym.name.value, path.value + "."))
  {
    var path := NodePath(parent, n.name);
    var r := NodePaths(defs, n, parent).value;
    var typePaths := TypeElementPaths(defs, n.typeName, Show(path), {});
    assert r[..|typePaths.value|] == typePaths.value;
    if !IsLeafDeclaration(defs, n) {
      TypeExpansionBelow(defs, n.typeName, Show(path), {});
      ChildrenPathsBelow(defs, n.children, path);
      forall sym | sym in r
        ensures sym.name.Some? && sym.name != path && StartsWith(sym.name.value, path.value + ".")
      {
        assert |sym.name.value| > |path.value|;
      }
    }
  }

  /** Sibling results are concatenated in document order. */
  lemma {:induction false} ChildrenPathsAppend(defs: Registry, a: seq<Node>, b: seq<Node>, parent: Option<string>)
    ensures ChildrenPaths(defs, a + b, parent) == Concat(ChildrenPaths(defs, a, parent), ChildrenPaths(defs, b, parent))
    decreases a
  {
    if a == [] {
      assert a + b == b;
      ConcatEmpty(ChildrenPaths(defs, b, parent));
    } else {
      assert (a + b)[0] == a[0];
      assert (a + b)[1..] == a[1..] + b;
      ChildrenPathsAppend(defs, a[1..], b, parent);
      ConcatAssociative(NodePaths(defs, a[0], parent), ChildrenPaths(defs, a[1..], parent), ChildrenPaths(defs, b, parent));
    }
  }

  /** `get_symbols` on two runs of `NodeList`s is the concatenation of the two results. */
  lemma SymbolsAppend(defs: Registry, a: seq<Node>, b: seq<Node>)
    ensures Symbols(defs, a + b) == Concat(Symbols(defs, a), Symbols(defs, b))
  {
    ChildrenPathsAppend(defs, a, b, Some(""));
  }

  /** A `NodeList` without name and registered type is transparent: its children start the paths. */
  lemma TransparentRoot(defs: Registry, root: Node, prefix: Option<string>)
    requires !Truthy(prefix) && !Truthy(root.name)
    requires root.typeName !in defs && root.children != []
    ensures NodePaths(defs, root, prefix) == ChildrenPaths(defs, root.children, root.name)
    ensures forall c | c in root.children :: NodePath(NodePath(prefix, root.name), c.name) == c.name
  {
    ConcatEmpty(ChildrenPaths(defs, root.children, root.name));
  }

  /**
   * A declaration of a registered type whose members all have primitive
   * types, with no children, yields exactly one symbol per member, in
   * member order, and none for itself.
   */
  lemma FlatTypeDeclaration(defs: Registry, n: Node, parent: Option<string>)
    requires n.children == [] && n.typeName in defs
    requires forall e | e in defs[n.typeName] :: e.typeName !in defs
    ensures var path := Show(NodePath(parent, n.name));
      var es := defs[n.typeName];
      var r := NodePaths(defs, n, parent);
      && r.Ok? && |r.value| == |es|
      && forall i | 0 <= i < |es| :: r.value[i] == LeafSymbol(path + "." + Show(es[i].iecName), es[i])
  {
    var path := Show(NodePath(parent, n.name));
    var es := defs[n.typeName];
    assert {} + {n.typeName} == {n.typeName};
    FlatElements(defs, es, path, {n.typeName});
    ConcatEmpty(TypeElementPaths(defs, n.typeName, path, {}));
  }

  lemma {:induction false} FlatElements(defs: Registry, es: seq<ElementInfo>, path: string, expanding: set<Option<string>>)
    requires forall e | e in es :: e.typeName !in defs
    ensures var r := ElementsPaths(defs, es, path, expanding);
      && r.Ok? && |r.value| == |es|
      && forall i | 0 <= i < |es| :: r.value[i] == LeafSymbol(path + "." + Show(es[i].iecName), es[i])
    decreases |es|
  {
    if es != [] {
      assert es[0] in es;
      FlatElements(defs, es[1..], path, expanding);
      var r := ElementsPaths(defs, es, path, expanding);
      var tail := ElementsPaths(defs, es[1..], path, expanding);
      assert r.value == [LeafSymbol(path + "." + Show(es[0].iecName), es[0])] + tail.value;
      forall i | 1 <= i < |es|
        ensures r.value[i] == LeafSymbol(path + "." + Show(es[i].iecName), es[i])
      {
        assert r.value[i] == tail.value[i - 1];
        assert es[1..][i - 1] == es[i];
      }
    }
  }
}
