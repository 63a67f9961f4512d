// The static namespace context: prefix declarations in a chain of nested
// scopes, each with its default element and function namespaces, and the
// table of predefined prefixes consulted at the outermost scope.

module Namespaces {
  import opened Base

  const LocalNsUri: string := "http://www.w3.org/2005/xquery-local-functions"
  const FnNsUri: string := "http://www.w3.org/2005/xpath-functions"
  const DefaultFnNsUri: string := "http://jsoniq.org/default-function-namespace"
  const XsiNsUri: string := "http://www.w3.org/2001/XMLSchema-instance"
  const XsNsUri: string := "http://www.w3.org/2001/XMLSchema"
  const XmlNsUri: string := "http://www.w3.org/XML/1998/namespace"
  const ErrNsUri: string := "http://www.w3.org/2005/xqt-errors"

  /** The predefined prefixes and their namespaces. */
  const Predefined: map<string, string> :=
    map["xml" := XmlNsUri, "xs" := XsNsUri, "xsi" := XsiNsUri, "fn" := FnNsUri,
        "local" := LocalNsUri, "err" := ErrNsUri]

  /** isPredefined consults the predefined table only. */
  function IsPredefined(prefix: string): (r: bool)
    ensures r <==> prefix in {"xml", "xs", "xsi", "fn", "local", "err"}
  {
    prefix in Predefined
  }

  class Namespaces {
    /** The local declarations: prefix to namespace URI (None is a null URI). */
    var namespaces: map<string, Option<string>>
    const parent: Namespaces?
    var defaultFunctionNamespace: Option<string>
    var defaultElementNamespace: Option<string>
    /** The enclosing scopes, and this scope's nesting depth. */
    ghost const ancestors: set<Namespaces>
    ghost const depth: nat

    ghost predicate Valid()
      decreases depth
    {
      (parent == null ==> ancestors == {} && depth == 0) &&
      (parent != null ==>
         ancestors == {parent} + parent.ancestors && depth == parent.depth + 1 && parent.Valid()) &&
      (forall a :: a in ancestors ==> a.depth < depth)
    }

    /** The outermost scope. */
    constructor ()
      ensures Valid() && parent == null && namespaces == map[]
      ensures defaultFunctionNamespace == Some(DefaultFnNsUri) && defaultElementNamespace == None
    {
      namespaces := map[];
      parent := null;
      defaultFunctionNamespace := Some(DefaultFnNsUri);
      defaultElementNamespace := None;
      ancestors := {};
      depth := 0;
    }

    /** A nested scope: no declarations of its own, the parent's default
      * namespaces copied. */
    constructor Nested(parent: Namespaces)
      requires parent.Valid()
      ensures Valid() && this.parent == parent && namespaces == map[]
      ensures defaultFunctionNamespace == parent.defaultFunctionNamespace
      ensures defaultElementNamespace == parent.defaultElementNamespace
    {
      namespaces := map[];
      this.parent := parent;
      defaultElementNamespace := parent.defaultElementNamespace;
      defaultFunctionNamespace := parent.defaultFunctionNamespace;
      ancestors := {parent} + parent.ancestors;
      depth := parent.depth + 1;
    }

    method SetDefaultFunctionNamespace(ns: Option<string>)
      modifies this`defaultFunctionNamespace
      ensures defaultFunctionNamespace == ns
    {
      defaultFunctionNamespace := ns;
    }

    method SetDefaultElementNamespace(ns: Option<string>)
      modifies this`defaultElementNamespace
      ensures defaultElementNamespace == ns
    {
      defaultElementNamespace := ns;
    }

    /** resolve: no prefix resolves to nothing; a local declaration wins;
      * otherwise the enclosing scope answers; the outermost scope falls back
      * on the predefined table. */
    function Resolve(prefix: Option<string>): (r: Option<string>)
      requires Valid()
      ensures prefix.None? || prefix.value == "" ==> r == None
      ensures prefix.Some? && prefix.value != "" && prefix.value in namespaces ==> r == namespaces[prefix.value]
      ensures parent == null && prefix.Some? && prefix.value != "" && prefix.value !in namespaces ==>
                r == if prefix.value in Predefined then Some(Predefined[prefix.value]) else None
      reads this, ancestors
      decreases depth
    {
      if prefix.None? || prefix.value == "" then None
      else if prefix.value in namespaces then namespaces[prefix.value]
      else if parent != null then parent.Resolve(prefix)
      else if prefix.value in Predefined then Some(Predefined[prefix.value])
      else None
    }

    /** declare: the prefix is bound to the URI here, replacing an earlier local
      * binding; every other prefix resolves as before. */
    method Declare(prefix: string, nsUri: Option<string>)
      requires Valid()
      modifies this`namespaces
      ensures Valid()
      ensures namespaces == old(namespaces)[prefix := nsUri]
      ensures prefix != "" ==> Resolve(Some(prefix)) == nsUri
      ensures forall q: string :: q != prefix ==> Resolve(Some(q)) == old(Resolve(Some(q)))
    {
      namespaces := namespaces[prefix := nsUri];
    }

    /** A prefix declared in no scope of the chain resolves through the
      * predefined table, or to nothing. */
    lemma {:induction false} ResolveUndeclared(prefix: string)
      requires Valid() && prefix != ""
      requires prefix !in namespaces && forall a :: a in ancestors ==> prefix !in a.namespaces
      ensures Resolve(Some(prefix)) == if prefix in Predefined then Some(Predefined[prefix]) else None
      decreases depth
    {
      if parent != null {
        parent.ResolveUndeclared(prefix);
      }
    }

    /** A declaration in some scope of the chain is found: resolution answers
      * with the binding of the nearest declaring scope (the deepest one, so
      * no scope between it and this one declares the prefix), and never
      * falls through to the predefined table. */
    lemma {:induction false} ResolveDeclared(prefix: string)
      requires Valid() && prefix != ""
      requires prefix in namespaces || exists a :: a in ancestors && prefix in a.namespaces
      ensures exists a :: (a == this || a in ancestors) && prefix in a.namespaces &&
                          Resolve(Some(prefix)) == a.namespaces[prefix] &&
                          forall b :: (b == this || b in ancestors) && prefix in b.namespaces ==> b.depth <= a.depth
      decreases depth
    {
      if prefix !in namespaces {
        var a :| a in ancestors && prefix in a.namespaces;
        assert parent != null;
        assert a == parent || a in parent.ancestors;
        parent.ResolveDeclared(prefix);
        var n :| (n == parent || n in parent.ancestors) && prefix in n.namespaces &&
                 parent.Resolve(Some(prefix)) == n.namespaces[prefix] &&
                 forall b :: (b == parent || b in parent.ancestors) && prefix in b.namespaces ==> b.depth <= n.depth;
        assert n in ancestors && Resolve(Some(prefix)) == n.namespaces[prefix];
      }
    }
  }
}
