/**
 * The already-parsed CODESYS symbol-configuration document, and the two
 * small text helpers the parser applies to it: `parse_comment` and
 * `parse_attribute`.
 *
 * Each XML element the parser reads becomes a fixed-shape record holding
 * exactly the attributes and sub-elements the parser asks for. An attribute
 * or sub-element that may be missing is an `Option`.
 */
module SymbolDocument {
  import opened Wrappers
  import opened Strings

  /** Member attributes the parser copies verbatim and never interprets. */
  datatype OtherAttributes = OtherAttributes(
    varType: Option<string>,
    enumValue: Option<string>,
    compilerOffset: Option<string>,
    bitOffset: Option<string>,
    inheritedFrom: Option<string>,
    propertyType: Option<string>,
    access: Option<string>)

  /**
   * A `UserDefElement`: one member of a user-defined type. `typeName` and
   * `iecName` are required by the schema, but the parser reads them with
   * `get` and accepts a member without them, so they are optional here too;
   * `comment` and `attribute` are the texts of the optional `Comment` and
   * `Attribute` sub-elements.
   */
  datatype UserDefElement = UserDefElement(
    typeName: Option<string>,
    iecName: Option<string>,
    byteOffset: Option<nat>,
    other: OtherAttributes,
    comment: Option<string>,
    attribute: Option<string>)

  /** A `TypeUserDef` element with its `name`, its `typeclass` and its members in document order. */
  datatype TypeUserDef = TypeUserDef(name: Option<string>, typeClass: Option<string>, elements: seq<UserDefElement>)

  /**
   * A `Node` (or `NodeList`) element of the declaration tree: its `name` and
   * `type` attributes, the text of its `Comment` sub-element and its `Node`
   * children in document order.
   */
  datatype Node = Node(name: Option<string>, typeName: Option<string>, comment: Option<string>, children: seq<Node>)

  /**
   * The document, reduced to what the parser queries: every `TypeUserDef`
   * element and every `NodeList` element, each in document order.
   */
  datatype SymbolConfiguration = SymbolConfiguration(typeDefs: seq<TypeUserDef>, nodeLists: seq<Node>)

  /** The two-character sequence backslash, `n` that comments use for a line break. */
  const EscapedNewline: string := "\\n"
  const Newline: string := "\n"

  /**
   * `parse_comment`: no comment gives the empty text; otherwise the text is
   * stripped of surrounding whitespace first and every escaped newline in
   * what remains then becomes a real line break.
   */
  function ParseComment(comment: Option<string>): string {
    if comment.None? then "" else Replace(Strip(comment.value), EscapedNewline, Newline)
  }

  const AttributeSeparator: string := ":="

  /**
   * `parse_attribute`: the attribute text split on `:=`, or `None` without
   * an attribute. The parts join back to the text and none of them contains
   * `:=`, which leaves the split as the only possible result.
   */
  function ParseAttribute(attribute: Option<string>): (r: Option<seq<string>>)
    ensures r.Some? <==> attribute.Some?
    ensures r.Some? ==> |r.value| >= 1 && Join(r.value, AttributeSeparator) == attribute.value
    ensures r.Some? ==> forall k, j: nat | 0 <= k < |r.value| :: !OccursAt(r.value[k], AttributeSeparator, j)
  {
    if attribute.None? then None
    else
      JoinSplit(attribute.value, AttributeSeparator);
      SplitPartsAreSeparatorFree(attribute.value, AttributeSeparator);
      Some(Split(attribute.value, AttributeSeparator))
  }

  /** The attribute key that hides a member from the HMI symbol list. */
  const IgnoreKey: string := "hmi_ignore"

  /** The member's attribute, split on `:=`, has `hmi_ignore` as its first part. */
  predicate IsIgnored(e: UserDefElement) {
    var attribute := ParseAttribute(e.attribute);
    attribute.Some? && attribute.value[0] == IgnoreKey
  }

  /**
   * What `parse_comment` returns: the empty text when there is no comment,
   * otherwise the stripped text with its escaped-newline parts joined by line
   * breaks; no escaped newline is left in the result.
   */
  lemma ParseCommentMeaning(comment: Option<string>)
    ensures comment.None? ==> ParseComment(comment) == ""
    ensures comment.Some? ==>
      ParseComment(comment) == Join(Split(Strip(comment.value), EscapedNewline), Newline)
    ensures forall j: nat :: !OccursAt(ParseComment(comment), EscapedNewline, j)
  {
    if comment.Some? {
      ReplaceIsJoinOfSplit(Strip(comment.value), EscapedNewline, Newline);
      NoEscapedNewlineAfterReplace(Strip(comment.value));
    }
  }

  /** Replacing escaped newlines leaves none behind (the line break cannot start or end one). */
  lemma {:induction false} NoEscapedNewlineAfterReplace(s: string)
    ensures forall j: nat :: !OccursAt(Replace(s, EscapedNewline, Newline), EscapedNewline, j)
    decreases |s|
  {
    match Find(s, EscapedNewline)
    case None =>
    case Some(i) =>
      var rest := s[i + 2..];
      var tail := Replace(rest, EscapedNewline, Newline);
      NoEscapedNewlineAfterReplace(rest);
      var r := s[..i] + Newline + tail;
      assert Replace(s, EscapedNewline, Newline) == r;
      forall j: nat
        ensures !OccursAt(r, EscapedNewline, j)
      {
        if j + 1 < i {
          assert r[j..j + 2] == s[j..j + 2];
          assert !OccursAt(s, EscapedNewline, j);
          assert !OccursAt(r, EscapedNewline, j);
        } else if j + 1 == i && j + 2 <= |r| {
          assert r[j..j + 2][1] == r[i] == '\n';
          assert !OccursAt(r, EscapedNewline, j);
        } else if j == i && j + 2 <= |r| {
          assert r[j..j + 2][0] == r[i] == '\n';
          assert !OccursAt(r, EscapedNewline, j);
        } else if j + 2 <= |r| {
          assert r[j..j + 2] == tail[j - i - 1..j - i + 1];
          assert !OccursAt(tail, EscapedNewline, j - i - 1);
          assert !OccursAt(r, EscapedNewline, j);
        }
      }
  }

  /** Stripping happens before the replacement, so an escaped newline at the end survives as a line break. */
  lemma StripBeforeReplace()
    ensures ParseComment(Some(" Pump fault\\n ")) == "Pump fault\n"
  {
    var t := " Pump fault\\n ";
    var u := t[1..];
    assert u == "Pump fault\\n ";
    assert !IsSpace(u[0]);
    assert LeadingSpaces(u) == 0;
    assert LeadingSpaces(t) == 1;
    var v := u[..|u| - 1];
    assert v == "Pump fault\\n";
    assert !IsSpace(v[|v| - 1]);
    assert TrailingSpaces(v) == 0;
    assert TrailingSpaces(u) == 1;
    assert Strip(t) == v;
    assert Find(v, EscapedNewline) == Some(10) by {
      assert OccursAt(v, EscapedNewline, 10);
      forall i: nat | i < 10
        ensures !OccursAt(v, EscapedNewline, i)
      {
        assert v[i..i + 2][0] == v[i] != EscapedNewline[0];
      }
    }
    assert v[..10] == "Pump fault";
    assert v[12..] == "";
    assert Replace(v[12..], EscapedNewline, Newline) == "";
  }

  /**
   * A member is ignored exactly when its attribute is `hmi_ignore` alone or
   * starts with `hmi_ignore:=`.
   */
  lemma IgnoredIff(e: UserDefElement)
    ensures IsIgnored(e) <==>
      e.attribute.Some? && (e.attribute.value == IgnoreKey || StartsWith(e.attribute.value, IgnoreKey + AttributeSeparator))
  {
    if e.attribute.Some? {
      var t := e.attribute.value;
      if Split(t, AttributeSeparator)[0] == IgnoreKey {
        IgnoreKeyFirstPart(t);
      }
      if t == IgnoreKey {
        IgnoreKeyAlone(t);
      }
      if StartsWith(t, IgnoreKey + AttributeSeparator) {
        IgnoreKeyWithValue(t);
      }
    }
  }

  lemma IgnoreKeyHasNoColon()
    ensures forall k | 0 <= k < |IgnoreKey| :: IgnoreKey[k] != ':'
  {
  }

  lemma IgnoreKeyFirstPart(t: string)
    requires Split(t, AttributeSeparator)[0] == IgnoreKey
    ensures t == IgnoreKey || StartsWith(t, IgnoreKey + AttributeSeparator)
  {
    var n := |IgnoreKey|;
    if t != IgnoreKey {
      assert OccursAt(t, AttributeSeparator, n);
      assert t[..n] == IgnoreKey;
      assert t[..n + 2] == t[..n] + t[n..n + 2];
    }
  }

  lemma IgnoreKeyAlone(t: string)
    requires t == IgnoreKey
    ensures Split(t, AttributeSeparator)[0] == IgnoreKey
  {
    IgnoreKeyHasNoColon();
    forall k: nat
      ensures !OccursAt(t, AttributeSeparator, k)
    {
      if k + 2 <= |t| {
        assert t[k..k + 2][0] == t[k];
      }
    }
  }

  lemma IgnoreKeyWithValue(t: string)
    requires StartsWith(t, IgnoreKey + AttributeSeparator)
    ensures Split(t, AttributeSeparator)[0] == IgnoreKey
  {
    var n := |IgnoreKey|;
    var p := Split(t, AttributeSeparator)[0];
    assert t[..n] == IgnoreKey;
    assert OccursAt(t, AttributeSeparator, n) by {
      assert t[n..n + 2] == (IgnoreKey + AttributeSeparator)[n..];
    }
    IgnoreKeyHasNoColon();
    forall k: nat | k < n
      ensures !OccursAt(t, AttributeSeparator, k)
    {
      if k + 2 <= |t| {
        assert t[k..k + 2][0] == t[k] == IgnoreKey[k];
      }
    }
    assert |p| == n;
    assert p == t[..|p|];
  }
}
