/** The environment of one search branch: the value bound to each variable
    and, in a parallel map, the type the search has guessed for it. Nothing
    forces the two to agree (the predefined variable `oh` does not). */
module Environment {
  import opened Base
  import opened Values

  /** A variable name, compared as text. */
  type Name = string

  datatype Variables = Variables(values: map<Name, Value>, types: map<Name, Type>) {

    /** `set_val`: insert or overwrite the value slot of `name`; the type slot
        is left alone. */
    function SetVal(name: Name, v: Value): (r: Variables)
      ensures r.types == types
      ensures r.values.Keys == values.Keys + {name} && r.values[name] == v
      ensures forall x | x in values && x != name :: r.values[x] == values[x]
    {
      Variables(values[name := v], types)
    }

    /** `get_val`: the value of `name`; an unbound name panics. */
    function GetVal(name: Name): (r: Outcome<Value>)
      ensures r.Done? <==> name in values
      ensures r.Done? ==> r.value == values[name]
    {
      if name in values then Done(values[name]) else Crash("called `Option::unwrap()` on a `None` value")
    }

    /** The guessed type of `name`, read with `unwrap`. */
    function GetType(name: Name): (r: Outcome<Type>)
      ensures r.Done? <==> name in types
      ensures r.Done? ==> r.value == types[name]
    {
      if name in types then Done(types[name]) else Crash("called `Option::unwrap()` on a `None` value")
    }
  }

  /** `Variables::new`: nothing bound, so every lookup panics. */
  function EmptyVariables(): (v: Variables)
    ensures forall n :: v.GetVal(n).Crash? && v.GetType(n).Crash?
  {
    Variables(map[], map[])
  }

  /** A value written and read back is the value written; writing one name
      leaves every other binding and every type as it was. */
  lemma SetThenGet(vars: Variables, name: Name, other: Name, v: Value)
    ensures vars.SetVal(name, v).GetVal(name) == Done(v)
    ensures other != name ==> vars.SetVal(name, v).GetVal(other) == vars.GetVal(other)
    ensures vars.SetVal(name, v).GetType(other) == vars.GetType(other)
  {
  }
}
