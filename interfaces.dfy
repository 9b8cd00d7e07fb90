/**
 * The validated setters of materials/obj/interfaces.py: `IHrc`,
 * `IWorkpiece` and `IHeatTreatment` each keep one field that only a
 * setter that has checked its argument assigns.
 *
 * `_check_in_dict` (inherited from `CheckerInDictionary` of the `service`
 * package, which is not part of this model) is a parameter `check`: it
 * either hands back the value to store (`Some`) or raises (`None`). The
 * WORKPIECE and HEAT_TREATMENT tables are `FieldsTypes` tables given to the
 * objects when they are made.
 */
module Interfaces {
  import opened Wrappers
  import opened PyValue
  import opened FieldsTypes

  /** The exceptions a setter raises. */
  datatype SetterError =
    | InvalidValue  // the hrc check
    | CheckFailed   // `_check_in_dict` raised
    | KeyError      // `TABLE[value]` on a value that is no key
    | TypeError     // `TABLE[value]` on an unhashable value

  /**
   * The int key a dict lookup `table[v]` uses: an int, or a float equal to
   * an int (it hashes and compares like that int); `None` for anything else.
   */
  function DictKey(v: Value): (k: Option<int>)
    ensures k.Some? ==> IsNumber(v) && NumberOf(v) == k.value as real
    ensures v.Int? ==> k == Some(v.i)
  {
    match v
    case Int(i) => Some(i)
    case Float(x) => if x == x.Floor as real then Some(x.Floor) else None
    case _ => None
  }

  /**
   * What the workpiece and heat-treatment setters store once the check has
   * passed: a str as it is, any other value replaced by the table's name
   * for it. The lookup hashes the value first, so an unhashable one raises
   * TypeError before any key is compared.
   */
  function StoredName(t: Table, checked: Value): (r: Result<string, SetterError>)
    ensures checked.Str? ==> r == Success(checked.s)
    ensures !checked.Str? ==> (r.Success? <==> DictKey(checked).Some? && HasKey(t, DictKey(checked).value))
    ensures !checked.Str? && r.Success? ==> r.value == Lookup(t, DictKey(checked).value)
    ensures !checked.Str? && r.Success? ==> HasName(t, r.value)
    ensures r.Failure? ==> (r.error == TypeError <==> !Hashable(checked))
    ensures r.Failure? ==> r.error == KeyError || r.error == TypeError
  {
    if checked.Str? then Success(checked.s)
    else if !Hashable(checked) then Failure(TypeError)
    else
      match DictKey(checked)
      case Some(k) =>
        if HasKey(t, k) then
          var i :| 0 <= i < |t| && t[i].key == k && t[i].name == Lookup(t, k);
          assert t[i].name == Lookup(t, k);
          Success(Lookup(t, k))
        else Failure(KeyError)
      case None => Failure(KeyError)
  }

  /** A whole setter call: the check, then the table lookup. */
  function SetterOutcome(t: Table, check: Value -> Option<Value>, v: Value): (r: Result<string, SetterError>)
    ensures check(v).None? ==> r == Failure(CheckFailed)
    ensures check(v).Some? ==> r == StoredName(t, check(v).value)
  {
    match check(v)
    case None => Failure(CheckFailed)
    case Some(w) => StoredName(t, w)
  }

  /**
   * A name the setter stores for a key is one that the field validator of
   * the same table maps back to that key's entry: the two views of the
   * table agree.
   */
  lemma StoredNameValidates(t: Table, checked: Value)
    requires !checked.Str? && StoredName(t, checked).Success?
    ensures Validate(t, Str(StoredName(t, checked).value)).Success?
    ensures Lookup(t, Validate(t, Str(StoredName(t, checked).value)).value) == StoredName(t, checked).value
  {
    var n := StoredName(t, checked).value;
    assert HasName(t, n);
    ValidateGivesKey(t, Str(n));
  }

  /** `IHrc`: the hardness after heat treatment, an int of at least 0. */
  class Hrc {
    var hrc: Option<int>

    /** `self._hrc = None`, the first line of `__init__`. */
    constructor Empty()
      ensures hrc == None
    {
      hrc := None;
    }

    /** The `hrc` setter: a non-int or a negative int raises before anything is stored. */
    method SetHrc(v: Value) returns (r: Result<(), SetterError>)
      modifies this
      ensures r.Success? <==> v.Int? && v.i >= 0
      ensures r.Success? ==> hrc == Some(v.i)
      ensures r.Failure? ==> r.error == InvalidValue && hrc == old(hrc)
    {
      if !v.Int? || v.i < 0 {
        return Failure(InvalidValue);
      }
      hrc := Some(v.i);
      return Success(());
    }

    /** `__init__`: an object exists exactly when the setter accepts the value. */
    static method New(v: Value) returns (r: Result<Hrc, SetterError>)
      ensures r.Success? <==> v.Int? && v.i >= 0
      ensures r.Success? ==> fresh(r.value) && r.value.hrc == Some(v.i)
      ensures r.Failure? ==> r.error == InvalidValue
    {
      var h := new Hrc.Empty();
      var outcome := h.SetHrc(v);
      if outcome.Failure? {
        return Failure(outcome.error);
      }
      return Success(h);
    }

    /** `_parameters`: exactly the one field. */
    function Parameters(): (m: map<string, Option<int>>)
      reads this
      ensures m.Keys == {"hrc"} && m["hrc"] == hrc
    {
      map["hrc" := hrc]
    }
  }

  /** `IWorkpiece`: the surface type of the workpiece, stored by name. */
  class Workpiece {
    const table: Table
    var workpiece: Option<string>

    /** `self._workpiece = None`, the first line of `__init__`, with the WORKPIECE table. */
    constructor Empty(table: Table)
      ensures this.table == table && workpiece == None
    {
      this.table := table;
      workpiece := None;
    }

    /** The `workpiece` setter: the field changes only when the check and the lookup pass. */
    method SetWorkpiece(v: Value, check: Value -> Option<Value>) returns (r: Result<(), SetterError>)
      modifies this
      ensures r.Success? <==> SetterOutcome(table, check, v).Success?
      ensures r.Success? ==> workpiece == Some(SetterOutcome(table, check, v).value)
      ensures r.Failure? ==> r.error == SetterOutcome(table, check, v).error && workpiece == old(workpiece)
    {
      var checked := check(v);
      if checked.None? {
        return Failure(CheckFailed);
      }
      var stored := StoredName(table, checked.value);
      if stored.Failure? {
        return Failure(stored.error);
      }
      workpiece := Some(stored.value);
      return Success(());
    }

    /** `__init__`: an object exists exactly when the setter accepts the value. */
    static method New(table: Table, v: Value, check: Value -> Option<Value>) returns (r: Result<Workpiece, SetterError>)
      ensures r.Success? <==> SetterOutcome(table, check, v).Success?
      ensures r.Success? ==> fresh(r.value) && r.value.table == table
      ensures r.Success? ==> r.value.workpiece == Some(SetterOutcome(table, check, v).value)
      ensures r.Failure? ==> r.error == SetterOutcome(table, check, v).error
    {
      var w := new Workpiece.Empty(table);
      var outcome := w.SetWorkpiece(v, check);
      if outcome.Failure? {
        return Failure(outcome.error);
      }
      return Success(w);
    }

    /** `_parameters`: exactly the one field. */
    function Parameters(): (m: map<string, Option<string>>)
      reads this
      ensures m.Keys == {"workpiece"} && m["workpiece"] == workpiece
    {
      map["workpiece" := workpiece]
    }
  }

  /** `IHeatTreatment`: the kind of heat treatment, stored by name. */
  class HeatTreatment {
    const table: Table
    var heatTreatment: Option<string>

    /** `self._heat_treatment = None`, the first line of `__init__`, with the HEAT_TREATMENT table. */
    constructor Empty(table: Table)
      ensures this.table == table && heatTreatment == None
    {
      this.table := table;
      heatTreatment := None;
    }

    /** The `heat_treatment` setter: the field changes only when the check and the lookup pass. */
    method SetHeatTreatment(v: Value, check: Value -> Option<Value>) returns (r: Result<(), SetterError>)
      modifies this
      ensures r.Success? <==> SetterOutcome(table, check, v).Success?
      ensures r.Success? ==> heatTreatment == Some(SetterOutcome(table, check, v).value)
      ensures r.Failure? ==> r.error == SetterOutcome(table, check, v).error && heatTreatment == old(heatTreatment)
    {
      var checked := check(v);
      if checked.None? {
        return Failure(CheckFailed);
      }
      var stored := StoredName(table, checked.value);
      if stored.Failure? {
        return Failure(stored.error);
      }
      heatTreatment := Some(stored.value);
      return Success(());
    }

    /** `__init__`: an object exists exactly when the setter accepts the value. */
    static method New(table: Table, v: Value, check: Value -> Option<Value>) returns (r: Result<HeatTreatment, SetterError>)
      ensures r.Success? <==> SetterOutcome(table, check, v).Success?
      ensures r.Success? ==> fresh(r.value) && r.value.table == table
      ensures r.Success? ==> r.value.heatTreatment == Some(SetterOutcome(table, check, v).value)
      ensures r.Failure? ==> r.error == SetterOutcome(table, check, v).error
    {
      var h := new HeatTreatment.Empty(table);
      var outcome := h.SetHeatTreatment(v, check);
      if outcome.Failure? {
        return Failure(outcome.error);
      }
      return Success(h);
    }

    /** `_parameters`: exactly the one field. */
    function Parameters(): (m: map<string, Option<string>>)
      reads this
      ensures m.Keys == {"heat_treatment"} && m["heat_treatment"] == heatTreatment
    {
      map["heat_treatment" := heatTreatment]
    }
  }
}
