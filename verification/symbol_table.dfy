/** The scoped symbol table of src/semantic_analyzer.rs: a stack of maps,
    one per scope, with a cursor at the current (innermost) scope. Every
    operation returns the new table instead of mutating it. */
module SymbolTables {
  import opened Wrappers

  datatype Type = Integer | Function

  datatype Symbol = Symbol(name: string, symbolType: Type, scopeLevel: nat)

  type Scope = map<string, Symbol>

  datatype SymbolTable = SymbolTable(scopes: seq<Scope>, current: nat) {
    /** The representation invariant: the scopes are exactly those from the
        outermost up to the current one. */
    predicate Valid() {
      |scopes| == current + 1
    }
  }

  /** `exit_scope` on the outermost scope (the source panics). */
  datatype ScopeFault = ExitingOutermostScope

  /** `declare_variable`'s error: the name is already in the current scope. */
  datatype DuplicateName = DuplicateName(name: string)

  /** `SymbolTable::new`: one empty scope, which is current. */
  function NewTable(): (t: SymbolTable)
    ensures t.Valid() && t.current == 0
    ensures forall name :: Lookup(t, name) == None
  {
    SymbolTable([map[]], 0)
  }

  /** `enter_scope`: the cursor moves up one, and empty scopes are pushed
      until one stands under it. */
  function EnterScope(t: SymbolTable): (r: SymbolTable)
    ensures r.current == t.current + 1
    ensures |r.scopes| == if |t.scopes| <= r.current then r.current + 1 else |t.scopes|
    ensures t.scopes <= r.scopes
    ensures forall i :: |t.scopes| <= i < |r.scopes| ==> r.scopes[i] == map[]
    ensures t.Valid() ==> r.Valid()
  {
    var missing := if |t.scopes| <= t.current + 1 then t.current + 2 - |t.scopes| else 0;
    SymbolTable(t.scopes + Empties(missing), t.current + 1)
  }

  function Empties(n: nat): (r: seq<Scope>)
    ensures |r| == n && forall i :: 0 <= i < n ==> r[i] == map[]
  {
    if n == 0 then [] else Empties(n - 1) + [map[]]
  }

  /** `exit_scope`: a fault at the outermost scope; otherwise every scope
      from the current one up is popped and the cursor moves down one. */
  function ExitScope(t: SymbolTable): (r: Result<SymbolTable, ScopeFault>)
    ensures r.Err? <==> t.current == 0
    ensures r.Ok? ==> r.value.current == t.current - 1
    ensures r.Ok? ==> r.value.scopes == t.scopes[..if |t.scopes| <= t.current then |t.scopes| else t.current]
    ensures r.Ok? && t.Valid() ==> r.value.Valid()
  {
    if t.current == 0 then
      Err(ExitingOutermostScope)
    else
      var keep := if |t.scopes| <= t.current then |t.scopes| else t.current;
      Ok(SymbolTable(t.scopes[..keep], t.current - 1))
  }

  /** `declare_variable`: an error when the current scope already holds the
      name; otherwise the name is bound in the current scope to a symbol of
      that scope's level, and no other binding changes. */
  function Declare(t: SymbolTable, name: string, ty: Type): (r: Result<SymbolTable, DuplicateName>)
    requires t.Valid()
    ensures r.Err? <==> name in t.scopes[t.current]
    ensures r.Err? ==> r.error == DuplicateName(name)
    ensures r.Ok? ==> r.value.Valid() && r.value.current == t.current
    ensures r.Ok? ==> r.value.scopes[t.current] == t.scopes[t.current][name := Symbol(name, ty, t.current)]
    ensures r.Ok? ==> forall i :: 0 <= i < t.current ==> r.value.scopes[i] == t.scopes[i]
  {
    var scope := t.scopes[t.current];
    if name in scope then
      Err(DuplicateName(name))
    else
      Ok(SymbolTable(t.scopes[t.current := scope[name := Symbol(name, ty, t.current)]], t.current))
  }

  /** The loop of `lookup_variable`, from scope `level` downwards. */
  function LookupFrom(scopes: seq<Scope>, level: nat, name: string): (r: Option<Symbol>)
    requires level < |scopes|
    ensures r.Some? <==> exists l :: 0 <= l <= level && name in scopes[l]
    ensures r.Some? ==> exists l :: 0 <= l <= level && name in scopes[l] && r.value == scopes[l][name]
                                      && forall k :: l < k <= level ==> name !in scopes[k]
  {
    if name !in scopes[level] && level > 0 then
      LookupFrom(scopes, level - 1, name)
    else if name in scopes[level] then
      Some(scopes[level][name])
    else
      None
  }

  /** `lookup_variable`: the binding of `name` in the innermost scope at or
      below the current one that binds it. */
  function Lookup(t: SymbolTable, name: string): Option<Symbol>
    requires t.current < |t.scopes|
  {
    LookupFrom(t.scopes, t.current, name)
  }

  // ---------------------------------------------------------------------------
  // Properties

  /** Lookup is determined by the scopes at or below the current one: the
      innermost binding wins, whatever the outer scopes hold. */
  lemma {:induction false} LookupFindsInnermost(scopes: seq<Scope>, level: nat, name: string, l: nat)
    requires l <= level < |scopes| && name in scopes[l]
    requires forall k :: l < k <= level ==> name !in scopes[k]
    ensures LookupFrom(scopes, level, name) == Some(scopes[l][name])
    decreases level
  {
    if level > l {
      LookupFindsInnermost(scopes, level - 1, name, l);
    }
  }

  /** A name bound at no level up to `level` is not found. */
  lemma {:induction false} LookupMisses(scopes: seq<Scope>, level: nat, name: string)
    requires level < |scopes|
    requires forall k :: 0 <= k <= level ==> name !in scopes[k]
    ensures LookupFrom(scopes, level, name) == None
    decreases level
  {
    if level > 0 {
      LookupMisses(scopes, level - 1, name);
    }
  }

  /** Lookup reads only the scopes up to `level`. */
  lemma {:induction false} LookupIgnoresHigherScopes(scopes: seq<Scope>, other: seq<Scope>, level: nat, name: string)
    requires level < |scopes| && level < |other|
    requires forall k :: 0 <= k <= level ==> scopes[k] == other[k]
    ensures LookupFrom(scopes, level, name) == LookupFrom(other, level, name)
    decreases level
  {
    if level > 0 {
      LookupIgnoresHigherScopes(scopes, other, level - 1, name);
    }
  }

  /** A successful declaration is what lookup then finds for that name,
      shadowing any outer binding; every other name looks up as before. */
  lemma DeclareThenLookup(t: SymbolTable, name: string, ty: Type, other: string)
    requires t.Valid() && Declare(t, name, ty).Ok?
    ensures Lookup(Declare(t, name, ty).value, name) == Some(Symbol(name, ty, t.current))
    ensures other != name ==> Lookup(Declare(t, name, ty).value, other) == Lookup(t, other)
  {
    var r := Declare(t, name, ty).value;
    LookupFindsInnermost(r.scopes, r.current, name, r.current);
    if other != name {
      var s1, s2 := r.scopes, t.scopes;
      assert forall k :: 0 <= k <= t.current ==> (other in s1[k] <==> other in s2[k]);
      assert forall k :: 0 <= k <= t.current && other in s1[k] ==> s1[k][other] == s2[k][other];
      LookupSameBindings(s1, s2, t.current, other);
    }
  }

  /** Lookup of a name depends only on that name's bindings. */
  lemma {:induction false} LookupSameBindings(s1: seq<Scope>, s2: seq<Scope>, level: nat, name: string)
    requires level < |s1| && level < |s2|
    requires forall k :: 0 <= k <= level ==> (name in s1[k] <==> name in s2[k])
    requires forall k :: 0 <= k <= level && name in s1[k] ==> s1[k][name] == s2[k][name]
    ensures LookupFrom(s1, level, name) == LookupFrom(s2, level, name)
    decreases level
  {
    if level > 0 {
      LookupSameBindings(s1, s2, level - 1, name);
    }
  }

  /** Entering a scope hides nothing: every name looks up as before. */
  lemma EnterScopeKeepsLookups(t: SymbolTable, name: string)
    requires t.Valid()
    ensures Lookup(EnterScope(t), name) == Lookup(t, name)
  {
    var r := EnterScope(t);
    assert name !in r.scopes[r.current];
    LookupIgnoresHigherScopes(r.scopes, t.scopes, t.current, name);
  }

  /** Leaving a scope just entered restores the table exactly. */
  lemma ExitUndoesEnter(t: SymbolTable)
    requires t.Valid()
    ensures ExitScope(EnterScope(t)) == Ok(t)
  {
    var r := EnterScope(t);
    assert r.scopes[..t.current + 1] == t.scopes;
  }

  /** Leaving a scope discards its declarations: after leaving and
      re-entering, the current scope is empty and lookups see only the
      scopes below the one left. */
  lemma ExitThenEnterForgets(t: SymbolTable, name: string)
    requires t.Valid() && t.current > 0
    ensures EnterScope(ExitScope(t).value).scopes[t.current] == map[]
    ensures Lookup(EnterScope(ExitScope(t).value), name) == LookupFrom(t.scopes, t.current - 1, name)
  {
    var down := ExitScope(t).value;
    EnterScopeKeepsLookups(down, name);
    LookupIgnoresHigherScopes(down.scopes, t.scopes, t.current - 1, name);
  }

  /** The scenario of the source's unit test for the symbol table. */
  lemma SymbolTableScenario()
    ensures var t0 := NewTable();
            var t1 := EnterScope(t0);
            var t2 := ExitScope(t1).value;
            var t3 := Declare(t2, "var1", Integer).value;
            var t4 := EnterScope(t3);
            var t5 := Declare(t4, "var1", Function).value;
            var t6 := Declare(t5, "var2", Function).value;
            var t7 := EnterScope(ExitScope(t6).value);
            && |t0.scopes| == 1 && t0.current == 0
            && |t1.scopes| == 2 && t1.current == 1
            && |t2.scopes| == 1 && t2.current == 0
            && Lookup(t3, "var1") == Some(Symbol("var1", Integer, 0))
            && Lookup(t4, "var1") == Some(Symbol("var1", Integer, 0))
            && Lookup(t5, "var1") == Some(Symbol("var1", Function, 1))
            && Declare(t5, "var1", Integer).Err?
            && Lookup(t7, "var2") == None
  {
    var t0 := NewTable();
    ExitUndoesEnter(t0);
    var t2 := ExitScope(EnterScope(t0)).value;
    var t3 := Declare(t2, "var1", Integer).value;
    DeclareThenLookup(t2, "var1", Integer, "var1");
    var t4 := EnterScope(t3);
    EnterScopeKeepsLookups(t3, "var1");
    var t5 := Declare(t4, "var1", Function).value;
    DeclareThenLookup(t4, "var1", Function, "var1");
    var t6 := Declare(t5, "var2", Function).value;
    ExitThenEnterForgets(t6, "var2");
    assert "var2" !in t6.scopes[0];
    LookupMisses(t6.scopes, 0, "var2");
  }
}
