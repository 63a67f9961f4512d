// A module's variable table: declared variables, the default context item,
// position and size, and the tables of imported modules searched in import
// order.

module Variables {
  import opened Base
  import opened Jdm

  /** Variable names: the reserved context names (the focus, its position and
    * the last position, declared by the compiler's Bits class) and ordinary
    * qualified names. */
  datatype VarName = FsDot | FsPosition | FsLast | Name(qname: QNm)

  /** The variables a lookup can return: a declared variable (with its
    * sequence type, by code) or one of the module's default context
    * variables. */
  datatype Variable = Declared(name: VarName, ty: nat) | DefaultCtxItem | DefaultCtxPos | DefaultCtxSize

  class Variables {
    var vars: map<VarName, Variable>
    var imports: seq<Variables>
    /** This table and every table reachable through imports. */
    ghost var Repr: set<object>

    ghost predicate Valid()
      reads this, Repr
      decreases Repr
    {
      this in Repr &&
      forall k :: 0 <= k < |imports| ==>
        imports[k] in Repr && imports[k].Repr <= Repr && this !in imports[k].Repr && imports[k].Valid()
    }

    constructor ()
      ensures Valid() && fresh(Repr) && vars == map[] && imports == []
    {
      vars := map[];
      imports := [];
      Repr := {this};
    }

    function IsDeclared(name: VarName): bool
      reads this
    {
      name in vars
    }

    /** What resolve answers: the local declaration first, then the default
      * context item or position, nothing for an undeclared last position, and
      * otherwise the first import, in import order, that knows the name. */
    function Lookup(name: VarName): Option<Variable>
      requires Valid()
      reads this, Repr
      decreases Repr, 1
    {
      if name in vars then Some(vars[name])
      else if name == FsDot then Some(DefaultCtxItem)
      else if name == FsPosition then Some(DefaultCtxPos)
      else if name == FsLast then None
      else LookupImports(name, 0)
    }

    /** The answer of the first import from position k on that knows the name. */
    function LookupImports(name: VarName, k: nat): Option<Variable>
      requires Valid() && k <= |imports|
      reads this, Repr
      decreases Repr, 0, |imports| - k
    {
      if k == |imports| then None
      else
        var r := imports[k].Lookup(name);
        if r.Some? then r else LookupImports(name, k + 1)
    }

    /** The imports are searched in order: the answer is the first import's
      * that has one, and none when no import has one. */
    lemma {:induction false} LookupImportsFirst(name: VarName, k: nat)
      requires Valid() && k <= |imports|
      ensures LookupImports(name, k).None? <==> forall j :: k <= j < |imports| ==> imports[j].Lookup(name).None?
      ensures LookupImports(name, k).Some? ==>
                exists j :: k <= j < |imports| && LookupImports(name, k) == imports[j].Lookup(name) &&
                            forall i :: k <= i < j ==> imports[i].Lookup(name).None?
      decreases |imports| - k
    {
      if k < |imports| {
        LookupImportsFirst(name, k + 1);
        if imports[k].Lookup(name).None? && LookupImports(name, k + 1).Some? {
          var j :| k + 1 <= j < |imports| && LookupImports(name, k + 1) == imports[j].Lookup(name) &&
                   forall i :: k + 1 <= i < j ==> imports[i].Lookup(name).None?;
          assert forall i :: k <= i < j ==> imports[i].Lookup(name).None?;
        }
      }
    }

    /** resolve: the loop over the imports, each asked in turn. */
    method Resolve(name: VarName) returns (r: Option<Variable>)
      requires Valid()
      ensures r == Lookup(name)
      decreases Repr
    {
      if name in vars {
        return Some(vars[name]);
      } else if name == FsDot {
        return Some(DefaultCtxItem);
      } else if name == FsPosition {
        return Some(DefaultCtxPos);
      } else if name == FsLast {
        return None;
      }
      for k := 0 to |imports|
        invariant LookupImports(name, 0) == LookupImports(name, k)
      {
        var v := imports[k].Resolve(name);
        if v.Some? {
          return v;
        }
      }
      return None;
    }

    /** importVariables: the table is searched after the earlier imports. */
    method ImportVariables(variables: Variables)
      requires Valid() && variables.Valid() && this !in variables.Repr
      modifies this
      ensures Valid()
      ensures vars == old(vars) && imports == old(imports) + [variables]
      ensures Repr == old(Repr) + variables.Repr
    {
      imports := imports + [variables];
      Repr := Repr + variables.Repr;
    }

    /** declare: a new variable under the name, replacing any earlier one;
      * it is what the name now resolves to. */
    method Declare(name: VarName, ty: nat) returns (v: Variable)
      requires Valid()
      modifies this`vars
      ensures Valid()
      ensures v == Declared(name, ty) && vars == old(vars)[name := v]
      ensures IsDeclared(name) && Lookup(name) == Some(v)
    {
      v := Declared(name, ty);
      vars := vars[name := v];
    }

    /** getDeclaredVariables: exactly the variables declared here. */
    function DeclaredVariables(): (r: set<Variable>)
      reads this
      ensures forall x :: x in r <==> exists n :: n in vars && vars[n] == x
    {
      vars.Values
    }
  }
}
