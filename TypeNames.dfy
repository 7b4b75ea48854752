/**
 * The type-name formatter of the logging facade: the three GetCleanTypeName
 * overloads of src/Topshelf/Logging/Logger.cs.  The reflection object the code
 * walks (System.Type) is replaced by a finite descriptor, so the recursion over
 * declaring types and generic arguments terminates structurally.
 */
module TypeNames {
  import opened Wrappers

  /**
   * What the formatter reads of a type: Type.IsGenericParameter, Type.Namespace
   * (None for a null namespace), Type.DeclaringType (None unless IsNested),
   * Type.IsGenericType, GetGenericTypeDefinition().Name, GetGenericArguments()
   * and Type.Name.
   */
  datatype TypeDesc = TypeDesc(
    isGenericParameter: bool,
    ns: Option<string>,
    declaringType: Option<TypeDesc>,
    isGenericType: bool,
    genericDefinitionName: string,
    genericArguments: seq<TypeDesc>,
    name: string)

  /** string.IndexOf(char): the index of the first occurrence of c in s, or -1. */
  function IndexOf(s: string, c: char): (r: int)
    ensures -1 <= r < |s|
    ensures r == -1 <==> c !in s
    ensures r >= 0 ==> s[r] == c && c !in s[..r]
  {
    if |s| == 0 then -1
    else if s[0] == c then 0
    else
      var k := IndexOf(s[1..], c);
      if k == -1 then -1
      else
        assert s[..k + 1] == [s[0]] + s[1..][..k];
        k + 1
  }

  /**
   * The generic definition name with its arity suffix removed: the name is cut
   * at its first backtick when that backtick is not the first character, and is
   * left whole otherwise.
   */
  function StripArity(name: string): (r: string)
    ensures r <= name
    ensures r == name <==> ('`' !in name || name[0] == '`')
    ensures r != name ==> |r| > 0 && name[|r|] == '`' && '`' !in r
  {
    var index := IndexOf(name, '`');
    if index > 0 then name[..index] else name
  }

  /** The parts in order with sep between neighbours (no leading or trailing sep). */
  function Join(parts: seq<string>, sep: string): (r: string)
  {
    if |parts| == 0 then ""
    else if |parts| == 1 then parts[0]
    else parts[0] + sep + Join(parts[1..], sep)
  }

  /** Concatenation regroups freely; stated once so that the builder proofs stay small. */
  lemma Assoc(a: string, b: string, c: string)
    ensures (a + b) + c == a + (b + c)
  {
  }

  /** The "ns." prefix: present iff the namespace is non-null and differs from the inherited scope. */
  function NamespacePrefix(ns: Option<string>, scope: Option<string>): (r: string)
  {
    if ns.Some? && ns != scope then ns.value + "." else ""
  }

  /**
   * The clean name of t when the enclosing call has already printed namespace
   * scope (None at the top level): what GetCleanTypeName appends to its builder.
   */
  function Format(t: TypeDesc, scope: Option<string>): (r: string)
    decreases t, 2
  {
    if t.isGenericParameter then ""
    else
      NamespacePrefix(t.ns, scope) + EnclosingName(t) + SimpleName(t)
  }

  /** For a nested type, its declaring type formatted inside its own namespace, then "+". */
  function EnclosingName(t: TypeDesc): (r: string)
    decreases t, 1
  {
    match t.declaringType
    case None => ""
    case Some(d) => Format(d, t.ns) + "+"
  }

  /** The type's own part of the name: Name, or the stripped definition name with its argument list. */
  function SimpleName(t: TypeDesc): (r: string)
    decreases t, 1
  {
    if t.isGenericType then StripArity(t.genericDefinitionName) + "<" + Join(ArgumentNames(t), ",") + ">"
    else t.name
  }

  /** Each generic argument formatted with the type's own namespace as scope. */
  function ArgumentNames(t: TypeDesc): (names: seq<string>)
    decreases t, 0
  {
    seq(|t.genericArguments|, i requires 0 <= i < |t.genericArguments| => Format(t.genericArguments[i], t.ns))
  }

  /** Joining one more part adds one separator (when there was a part before) and then the part. */
  lemma {:induction false} JoinSnoc(parts: seq<string>, x: string, sep: string)
    ensures Join(parts + [x], sep) == Join(parts, sep) + (if |parts| > 0 then sep else "") + x
  {
    if |parts| == 0 {
      assert parts + [x] == [x];
    } else if |parts| == 1 {
      assert (parts + [x])[1..] == [x];
    } else {
      assert (parts + [x])[1..] == parts[1..] + [x];
      JoinSnoc(parts[1..], x, sep);
    }
  }

  /** Joining the first i + 1 parts extends the join of the first i parts by one part. */
  lemma JoinTakeNext(parts: seq<string>, i: nat, sep: string)
    requires i < |parts|
    ensures Join(parts[..i + 1], sep) == Join(parts[..i], sep) + (if i > 0 then sep else "") + parts[i]
  {
    assert parts[..i + 1] == parts[..i] + [parts[i]];
    JoinSnoc(parts[..i], parts[i], sep);
  }

  /** Joining n empty parts leaves only the n - 1 separators. */
  lemma {:induction false} JoinOfEmpties(parts: seq<string>)
    requires forall i :: 0 <= i < |parts| ==> parts[i] == ""
    ensures Join(parts, ",") == seq(if |parts| == 0 then 0 else |parts| - 1, _ => ',')
  {
    if |parts| > 1 {
      JoinOfEmpties(parts[1..]);
    }
  }

  /**
   * Generic parameters print as nothing, so an open generic type's argument
   * list holds only the separators: "<>" for one parameter, "<,>" for two.
   */
  lemma OpenGenericArgumentList(t: TypeDesc)
    requires t.isGenericType
    requires forall i :: 0 <= i < |t.genericArguments| ==> t.genericArguments[i].isGenericParameter
    ensures |t.genericArguments| <= 1 ==> SimpleName(t) == StripArity(t.genericDefinitionName) + "<>"
    ensures |t.genericArguments| == 2 ==> SimpleName(t) == StripArity(t.genericDefinitionName) + "<,>"
    ensures |t.genericArguments| > 0 ==>
      SimpleName(t) == StripArity(t.genericDefinitionName) + "<" + seq(|t.genericArguments| - 1, _ => ',') + ">"
  {
    var names := ArgumentNames(t);
    assert forall i :: 0 <= i < |names| ==> names[i] == Format(t.genericArguments[i], t.ns);
    JoinOfEmpties(names);
  }

  /**
   * The scope only decides the type's own namespace prefix: "ns." is printed iff
   * the namespace is non-null and differs from the scope; the rest of the name
   * is what the type prints inside its own namespace.
   */
  lemma ScopeDecidesOnlyOwnPrefix(t: TypeDesc, scope: Option<string>)
    requires !t.isGenericParameter
    ensures t.ns.Some? && t.ns != scope ==> Format(t, scope) == t.ns.value + "." + Format(t, t.ns)
    ensures t.ns.None? || t.ns == scope ==> Format(t, scope) == Format(t, t.ns)
  {
  }

  /** At the top level (scope null) a type with a namespace always starts with "ns.". */
  lemma TopLevelShowsNamespace(t: TypeDesc)
    requires !t.isGenericParameter && t.ns.Some?
    ensures t.ns.value + "." <= Format(t, None)
  {
    ScopeDecidesOnlyOwnPrefix(t, None);
  }

  /** A chain of non-generic types nested in one another, all in namespace n. */
  predicate PlainNestingIn(t: TypeDesc, n: string)
  {
    !t.isGenericParameter && !t.isGenericType && t.ns == Some(n)
    && (t.declaringType.Some? ==> PlainNestingIn(t.declaringType.value, n))
  }

  /** The simple names of t's declaring chain, outermost first, ending with t's own. */
  function NestingChain(t: TypeDesc): (names: seq<string>)
    ensures |names| > 0 && names[|names| - 1] == t.name
  {
    match t.declaringType
    case None => [t.name]
    case Some(d) => NestingChain(d) + [t.name]
  }

  /**
   * Inside its own namespace a plain nested type prints as its declaring chain
   * joined by "+", with no namespace repeated at any level.
   */
  lemma {:induction false} NestedChainInScope(t: TypeDesc, n: string)
    requires PlainNestingIn(t, n)
    ensures Format(t, Some(n)) == Join(NestingChain(t), "+")
  {
    match t.declaringType
    case None =>
    case Some(d) =>
      NestedChainInScope(d, n);
      JoinSnoc(NestingChain(d), t.name, "+");
  }

  /** So at the top level it prints as "n.Outer+...+Inner". */
  lemma NestedChainAtTopLevel(t: TypeDesc, n: string)
    requires PlainNestingIn(t, n)
    ensures Format(t, None) == n + "." + Join(NestingChain(t), "+")
  {
    ScopeDecidesOnlyOwnPrefix(t, None);
    NestedChainInScope(t, n);
  }

  /** A non-generic type named name in namespace n, nested in declaringType when that is present. */
  function PlainType(n: string, name: string, declaringType: Option<TypeDesc>): (t: TypeDesc)
  {
    TypeDesc(false, Some(n), declaringType, false, "", [], name)
  }

  /** Worked cases: a plain type, a nested type and a generic parameter. */
  lemma PlainAndNestedExamples()
    ensures Format(PlainType("N", "T", None), None) == "N.T"
    ensures Format(PlainType("N", "Inner", Some(PlainType("N", "Outer", None))), None) == "N.Outer+Inner"
    ensures Format(TypeDesc(true, Some("N"), None, false, "", [], "T"), None) == ""
  {
    assert Format(PlainType("N", "Outer", None), Some("N")) == "Outer";
  }

  /** The arity suffix of List`1 is cut at its backtick. */
  lemma ListArityStripped()
    ensures StripArity("List`1") == "List"
  {
    assert IndexOf("List`1", '`') == 4 by {
      assert "List`1"[4] == '`';
      assert "List`1"[..4] == "List";
    }
  }

  /**
   * A generic type in namespace n constructed with one plain type a of the same
   * namespace prints as n.Name<a>: the argument carries no prefix.
   */
  lemma GenericOfSameNamespace(n: string, def: string, a: string)
    ensures Format(TypeDesc(false, Some(n), None, true, def, [PlainType(n, a, None)], def), None)
      == n + "." + StripArity(def) + "<" + a + ">"
  {
    var t := TypeDesc(false, Some(n), None, true, def, [PlainType(n, a, None)], def);
    assert Format(PlainType(n, a, None), Some(n)) == a;
    assert ArgumentNames(t) == [a];
  }

  /** Worked case: List`1 in namespace N with argument T from N prints the argument bare. */
  lemma GenericSameNamespaceExample()
    ensures Format(TypeDesc(false, Some("N"), None, true, "List`1", [PlainType("N", "T", None)], "List`1"), None)
      == "N.List<T>"
  {
    GenericOfSameNamespace("N", "List`1", "T");
    ListArityStripped();
    assert "N" + "." + "List" == "N.List";
    assert "N.List" + "<" + "T" + ">" == "N.List<T>";
  }

  /**
   * Each generic argument is printed inside its generic's namespace: bare when
   * it lives in that same namespace, with its own "ns." prefix otherwise.
   */
  lemma ArgumentPrefix(t: TypeDesc, i: nat)
    requires i < |t.genericArguments| && !t.genericArguments[i].isGenericParameter
    ensures var a := t.genericArguments[i];
      a.ns.Some? && a.ns != t.ns ==> ArgumentNames(t)[i] == a.ns.value + "." + Format(a, a.ns)
    ensures var a := t.genericArguments[i];
      a.ns.None? || a.ns == t.ns ==> ArgumentNames(t)[i] == Format(a, a.ns)
  {
    ScopeDecidesOnlyOwnPrefix(t.genericArguments[i], t.ns);
  }

  /**
   * GetCleanTypeName(StringBuilder, Type, string): appends the clean name of t
   * to the builder sb and returns the whole builder, or "" (appending nothing)
   * for a generic parameter.
   */
  method AppendCleanTypeName(sb: string, t: TypeDesc, scope: Option<string>) returns (sb': string, r: string)
    ensures sb' == sb + Format(t, scope)
    ensures r == if t.isGenericParameter then "" else sb'
    decreases t
  {
    if t.isGenericParameter {
      return sb, "";
    }
    ghost var whole := NamespacePrefix(t.ns, scope) + EnclosingName(t) + SimpleName(t);
    assert Format(t, scope) == whole;
    sb' := sb;
    if t.ns.Some? {
      var ns := t.ns.value;
      if Some(ns) != scope {
        sb' := sb' + ns;
        sb' := sb' + ".";
        Assoc(sb, ns, ".");
      }
    }
    if NamespacePrefix(t.ns, scope) == "" {
      assert sb + "" == sb;
    }
    assert sb' == sb + NamespacePrefix(t.ns, scope);
    ghost var qualified := sb';
    if t.declaringType.Some? {
      var discarded;
      sb', discarded := AppendCleanTypeName(sb', t.declaringType.value, t.ns);
      sb' := sb' + "+";
      Assoc(qualified, Format(t.declaringType.value, t.ns), "+");
    } else {
      assert qualified + "" == qualified;
    }
    assert sb' == qualified + EnclosingName(t);
    ghost var head := sb';
    if t.isGenericType {
      var name := t.genericDefinitionName;
      var index := IndexOf(name, '`');
      if index > 0 {
        name := name[..index];
      }
      sb' := sb' + name;
      sb' := sb' + "<";
      Assoc(head, name, "<");
      ghost var open := sb';
      var arguments := t.genericArguments;
      ghost var names := ArgumentNames(t);
      for i := 0 to |arguments|
        invariant sb' == open + Join(names[..i], ",")
      {
        ghost var before := sb';
        if i > 0 {
          sb' := sb' + ",";
        }
        var discarded;
        sb', discarded := AppendCleanTypeName(sb', arguments[i], t.ns);
        JoinTakeNext(names, i, ",");
        Assoc(open, Join(names[..i], ","), (if i > 0 then "," else ""));
        Assoc(open, Join(names[..i], ",") + (if i > 0 then "," else ""), names[i]);
      }
      assert names[..|arguments|] == names;
      sb' := sb' + ">";
      Assoc(head, name + "<", Join(names, ","));
      Assoc(head, name + "<" + Join(names, ","), ">");
    } else {
      sb' := sb' + t.name;
    }
    assert sb' == head + SimpleName(t);
    assert sb' == sb + NamespacePrefix(t.ns, scope) + EnclosingName(t) + SimpleName(t);
    Assoc(sb, NamespacePrefix(t.ns, scope), EnclosingName(t));
    Assoc(sb, NamespacePrefix(t.ns, scope) + EnclosingName(t), SimpleName(t));
    r := sb';
  }

  /** GetCleanTypeName(Type): the clean name of t, built in a fresh builder with a null scope. */
  method GetCleanTypeName(t: TypeDesc) returns (name: string)
    ensures name == Format(t, None)
  {
    var sb;
    sb, name := AppendCleanTypeName("", t, None);
  }

}
