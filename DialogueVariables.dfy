/**
 * The dialogue variable store: three dictionaries from variable names to
 * bool, int and string values. The source keeps them in static fields; here
 * they are the fields of one store object that the conditions and modifiers
 * receive explicitly.
 */
module Variables {
  import opened Wrappers
  import opened Int32

  /** The manifest of declared variable names (both revisions of ConditionVariableNamesSO hold these three arrays). */
  datatype VariableNames = VariableNames(boolVarNames: seq<string>, intVarNames: seq<string>, stringVarNames: seq<string>)

  /** `m` with every name of `names` set to `zero`; keys outside `names` keep their values. */
  function WithDefaults<V>(m: map<string, V>, names: seq<string>, zero: V): (r: map<string, V>)
    ensures r.Keys == m.Keys + set n | n in names
    ensures forall n :: n in names ==> r[n] == zero
    ensures forall n :: n in m && n !in names ==> r[n] == m[n]
  {
    m + map n | n in names :: zero
  }

  /** Declaring names a second time changes nothing, so repeated or duplicate declarations are harmless. */
  lemma WithDefaultsIdempotent<V>(m: map<string, V>, names: seq<string>, more: seq<string>, zero: V)
    requires forall n :: n in more ==> n in names
    ensures WithDefaults(WithDefaults(m, names, zero), more, zero) == WithDefaults(m, names, zero)
  {
    var once := WithDefaults(m, names, zero);
    var twice := WithDefaults(once, more, zero);
    assert twice.Keys == once.Keys;
    forall n | n in twice ensures twice[n] == once[n] {
      if n in more {
        assert n in names;
      }
    }
  }

  lemma WithDefaultsSnoc<V>(m: map<string, V>, names: seq<string>, name: string, zero: V)
    ensures WithDefaults(m, names + [name], zero) == WithDefaults(m, names, zero)[name := zero]
  {
    var l, r := WithDefaults(m, names + [name], zero), WithDefaults(m, names, zero)[name := zero];
    assert forall n :: n in names + [name] <==> n in names || n == name;
    assert l.Keys == r.Keys;
  }

  class DialogueVariables {
    var boolVariables: map<string, bool>
    var intVariables: map<string, Int32>
    var stringVariables: map<string, string>

    /** The static initialisers: three empty dictionaries. */
    constructor ()
      ensures boolVariables == map[] && intVariables == map[] && stringVariables == map[]
    {
      boolVariables := map[];
      intVariables := map[];
      stringVariables := map[];
    }

    /** The stored value, or null when the name is not a key. */
    function GetBool(name: string): (value: Option<bool>)
      reads this
      ensures value.Some? <==> name in boolVariables
      ensures value.Some? ==> value.value == boolVariables[name]
    {
      if name in boolVariables then Some(boolVariables[name]) else None
    }

    function GetInt(name: string): (value: Option<Int32>)
      reads this
      ensures value.Some? <==> name in intVariables
      ensures value.Some? ==> value.value == intVariables[name]
    {
      if name in intVariables then Some(intVariables[name]) else None
    }

    function GetString(name: string): (value: Option<string>)
      reads this
      ensures value.Some? <==> name in stringVariables
      ensures value.Some? ==> value.value == stringVariables[name]
    {
      if name in stringVariables then Some(stringVariables[name]) else None
    }

    /** Upsert: the name now reads `value`; no other name and no other dictionary changes. */
    method SetBool(name: string, value: bool)
      modifies this
      ensures boolVariables == old(boolVariables)[name := value]
      ensures intVariables == old(intVariables) && stringVariables == old(stringVariables)
      ensures GetBool(name) == Some(value)
    {
      boolVariables := boolVariables[name := value];
    }

    method SetInt(name: string, value: Int32)
      modifies this
      ensures intVariables == old(intVariables)[name := value]
      ensures boolVariables == old(boolVariables) && stringVariables == old(stringVariables)
      ensures GetInt(name) == Some(value)
    {
      intVariables := intVariables[name := value];
    }

    method SetString(name: string, value: string)
      modifies this
      ensures stringVariables == old(stringVariables)[name := value]
      ensures boolVariables == old(boolVariables) && intVariables == old(intVariables)
      ensures GetString(name) == Some(value)
    {
      stringVariables := stringVariables[name := value];
    }

    /** Empties the bool and int dictionaries; the string dictionary is left as it is. */
    method ClearAllVariables()
      modifies this
      ensures boolVariables == map[] && intVariables == map[]
      ensures stringVariables == old(stringVariables)
    {
      boolVariables := map[];
      intVariables := map[];
    }

    /**
     * Declares every manifest name with its type's zero value (false, 0, "");
     * names outside the manifest keep their entries. The three loops of the
     * source are the three calls.
     */
    method SetDialogueVariablesNamesSO(names: VariableNames)
      modifies this
      ensures boolVariables == WithDefaults(old(boolVariables), names.boolVarNames, false)
      ensures intVariables == WithDefaults(old(intVariables), names.intVarNames, 0)
      ensures stringVariables == WithDefaults(old(stringVariables), names.stringVarNames, "")
    {
      DeclareBools(names.boolVarNames);
      DeclareInts(names.intVarNames);
      DeclareStrings(names.stringVarNames);
    }

    method DeclareBools(names: seq<string>)
      modifies this
      ensures boolVariables == WithDefaults(old(boolVariables), names, false)
      ensures intVariables == old(intVariables) && stringVariables == old(stringVariables)
    {
      var i := 0;
      while i < |names|
        invariant 0 <= i <= |names|
        invariant boolVariables == WithDefaults(old(boolVariables), names[..i], false)
        invariant intVariables == old(intVariables) && stringVariables == old(stringVariables)
      {
        assert names[..i + 1] == names[..i] + [names[i]];
        WithDefaultsSnoc(old(boolVariables), names[..i], names[i], false);
        SetBool(names[i], false);
        i := i + 1;
      }
      assert names[..i] == names;
    }

    method DeclareInts(names: seq<string>)
      modifies this
      ensures intVariables == WithDefaults(old(intVariables), names, 0)
      ensures boolVariables == old(boolVariables) && stringVariables == old(stringVariables)
    {
      var i := 0;
      while i < |names|
        invariant 0 <= i <= |names|
        invariant intVariables == WithDefaults(old(intVariables), names[..i], 0)
        invariant boolVariables == old(boolVariables) && stringVariables == old(stringVariables)
      {
        assert names[..i + 1] == names[..i] + [names[i]];
        WithDefaultsSnoc(old(intVariables), names[..i], names[i], 0);
        SetInt(names[i], 0);
        i := i + 1;
      }
      assert names[..i] == names;
    }

    method DeclareStrings(names: seq<string>)
      modifies this
      ensures stringVariables == WithDefaults(old(stringVariables), names, "")
      ensures boolVariables == old(boolVariables) && intVariables == old(intVariables)
    {
      var i := 0;
      while i < |names|
        invariant 0 <= i <= |names|
        invariant stringVariables == WithDefaults(old(stringVariables), names[..i], "")
        invariant boolVariables == old(boolVariables) && intVariables == old(intVariables)
      {
        assert names[..i + 1] == names[..i] + [names[i]];
        WithDefaultsSnoc(old(stringVariables), names[..i], names[i], "");
        SetString(names[i], "");
        i := i + 1;
      }
      assert names[..i] == names;
    }
  }
}
