/**
 * The state updates of `Material` (materials/obj/material.py): the kind
 * of heat treatment and the workpiece surface are set from an index or a
 * name, and `get_material_parameters` replaces the brand only for a brand
 * that is given, not blank and new.
 *
 * NAMES_OF_HEAT_TREATMENT and NAMES_OF_WORKPIECE (index -> name) and
 * INDEXES_OF_HEAT_TREATMENT and INDEXES_OF_WORKPIECE (name -> index) live in
 * materials/obj/constants, which is not part of this model: the object is
 * given them when it is made.
 */
module MaterialState {
  import opened Wrappers
  import opened PyValue
  import opened FieldsTypes

  /**
   * Why an update rejects its argument. The code raises `InvalidValue` in
   * each case, a name material.py never imports, so what actually
   * propagates is a `NameError`; either way the field is not assigned.
   */
  datatype UpdateError =
    | NoSuchIndex   // an int that is no index of the names table
    | NoSuchName    // a str that is no name of the indexes table
    | NoSuchKind    // neither None, an int nor a str

  /**
   * The field after `update_heat_treatment` / `update_workpiece` with
   * argument `v`, given its value `current` before the call: `None` leaves
   * it, a known index is stored, a known name is stored as its index.
   */
  function Update(names: Table, indexes: map<string, int>, current: Option<int>, v: Value): (r: Result<Option<int>, UpdateError>)
    ensures v.Nothing? ==> r == Success(current)
    ensures v.Int? ==> (r.Success? <==> HasKey(names, v.i))
    ensures v.Str? ==> (r.Success? <==> v.s in indexes)
    ensures !v.Nothing? && !v.Int? && !v.Str? ==> r == Failure(NoSuchKind)
    ensures !v.Nothing? && r.Success? ==> r.value.Some?
    ensures v.Int? && r.Success? ==> r.value == Some(v.i)
    ensures v.Str? && r.Success? ==> r.value == Some(indexes[v.s])
  {
    match v
    case Nothing => Success(current)
    case Int(k) => if HasKey(names, k) then Success(Some(k)) else Failure(NoSuchIndex)
    case Str(s) => if s in indexes then Success(Some(indexes[s])) else Failure(NoSuchName)
    case _ => Failure(NoSuchKind)
  }

  /**
   * With the indexes table the inverse of the names table, an update
   * accepts exactly what the field validator of the names table accepts,
   * and stores the key that validator returns.
   */
  lemma UpdateAgreesWithValidate(names: Table, current: Option<int>, v: Value)
    requires v.Int? || v.Str?
    ensures Update(names, Inverse(names), current, v).Success? <==> Validate(names, v).Success?
    ensures Validate(names, v).Success? ==> Update(names, Inverse(names), current, v) == Success(Some(Validate(names, v).value))
  {
    if v.Str? {
      InverseDomain(names, v.s);
    }
  }

  /**
   * When every name's index is an index of the names table, an update that
   * stores an index can be repeated with that index, whatever the field
   * then holds, and stores the same.
   */
  lemma UpdateIdempotent(names: Table, indexes: map<string, int>, current: Option<int>, v: Value, other: Option<int>)
    requires forall s :: s in indexes ==> HasKey(names, indexes[s])
    requires !v.Nothing? && Update(names, indexes, current, v).Success?
    ensures Update(names, indexes, other, Int(Update(names, indexes, current, v).value.value)) == Update(names, indexes, current, v)
  {
  }

  /** The brands `get_material_parameters` treats as "no brand given": `"", " ", "  ", None, 0`. */
  const BlankBrands: seq<Value> := [Str(""), Str(" "), Str("  "), Nothing, Int(0)]

  /** `brand in [...]`: Python compares the brand with each entry by `==`. */
  predicate InBlankBrands(brand: Value) {
    exists k :: 0 <= k < |BlankBrands| && Equal(brand, BlankBrands[k])
  }

  /** `new_brand_exists`: not blank, not None and not a negative number. */
  predicate NewBrandExists(brand: Value) {
    !(InBlankBrands(brand) || brand.Nothing? || (IsNumber(brand) && NumberOf(brand) < 0.0))
  }

  /** The guard of `get_material_parameters`: a new brand that differs from the current one. */
  predicate ReplacesBrand(current: Value, brand: Value) {
    NewBrandExists(brand) && !Equal(current, brand)
  }

  /** A str brand replaces the current one exactly when it is not blank and not the current str. */
  lemma StrBrandReplaces(current: Value, s: string)
    ensures ReplacesBrand(current, Str(s)) <==> s != "" && s != " " && s != "  " && current != Str(s)
  {
    var b := Str(s);
    if s == "" {
      assert Equal(b, BlankBrands[0]);
    } else if s == " " {
      assert Equal(b, BlankBrands[1]);
    } else if s == "  " {
      assert Equal(b, BlankBrands[2]);
    } else {
      assert !InBlankBrands(b) by {
        forall k | 0 <= k < |BlankBrands| ensures !Equal(b, BlankBrands[k]) {
        }
      }
    }
  }

  /**
   * A numeric brand replaces the current one exactly when it is positive
   * and not numerically equal to the current brand (so 0.0 and -1 never do).
   */
  lemma NumberBrandReplaces(current: Value, brand: Value)
    requires IsNumber(brand)
    ensures ReplacesBrand(current, brand) <==>
      NumberOf(brand) > 0.0 && !(IsNumber(current) && NumberOf(current) == NumberOf(brand))
  {
    if NumberOf(brand) == 0.0 {
      assert Equal(brand, BlankBrands[4]);
    } else {
      assert !InBlankBrands(brand) by {
        forall k | 0 <= k < |BlankBrands| ensures !Equal(brand, BlankBrands[k]) {
        }
      }
    }
  }

  /** None, and any brand equal to the current one, never replace it. */
  lemma KeptBrands(current: Value)
    ensures !ReplacesBrand(current, Nothing)
    ensures !ReplacesBrand(current, current)
  {
    EqualReflexive(current);
  }

  /** The processed material: the fields the updates and the brand guard change. */
  class Material {
    const namesHt: Table
    const indexesHt: map<string, int>
    const namesWp: Table
    const indexesWp: map<string, int>
    var brand: Value
    var typeOfHeatTreatment: Option<int>
    var workpiece: Option<int>

    /** The fields `__init__` sets before its update calls, with the four tables. */
    constructor (brand: Value, namesHt: Table, indexesHt: map<string, int>, namesWp: Table, indexesWp: map<string, int>)
      ensures this.brand == brand && typeOfHeatTreatment == None && workpiece == None
      ensures this.namesHt == namesHt && this.indexesHt == indexesHt
      ensures this.namesWp == namesWp && this.indexesWp == indexesWp
    {
      this.brand := brand;
      this.namesHt := namesHt;
      this.indexesHt := indexesHt;
      this.namesWp := namesWp;
      this.indexesWp := indexesWp;
      typeOfHeatTreatment := None;
      workpiece := None;
    }

    /** `update_heat_treatment`: the field changes only on a valid index or name. */
    method UpdateHeatTreatment(v: Value) returns (r: Result<(), UpdateError>)
      modifies this`typeOfHeatTreatment
      ensures r.Success? <==> Update(namesHt, indexesHt, old(typeOfHeatTreatment), v).Success?
      ensures r.Success? ==> typeOfHeatTreatment == Update(namesHt, indexesHt, old(typeOfHeatTreatment), v).value
      ensures r.Failure? ==> typeOfHeatTreatment == old(typeOfHeatTreatment)
      ensures r.Failure? ==> r.error == Update(namesHt, indexesHt, old(typeOfHeatTreatment), v).error
    {
      if v.Nothing? {
        return Success(());
      }
      if v.Int? {
        if HasKey(namesHt, v.i) {
          typeOfHeatTreatment := Some(v.i);
          return Success(());
        }
        return Failure(NoSuchIndex);
      } else if v.Str? {
        if v.s in indexesHt {
          typeOfHeatTreatment := Some(indexesHt[v.s]);
          return Success(());
        }
        return Failure(NoSuchName);
      }
      return Failure(NoSuchKind);
    }

    /** `update_workpiece`: the same pattern over the workpiece tables. */
    method UpdateWorkpiece(v: Value) returns (r: Result<(), UpdateError>)
      modifies this`workpiece
      ensures r.Success? <==> Update(namesWp, indexesWp, old(workpiece), v).Success?
      ensures r.Success? ==> workpiece == Update(namesWp, indexesWp, old(workpiece), v).value
      ensures r.Failure? ==> workpiece == old(workpiece)
      ensures r.Failure? ==> r.error == Update(namesWp, indexesWp, old(workpiece), v).error
    {
      if v.Nothing? {
        return Success(());
      }
      if v.Int? {
        if HasKey(namesWp, v.i) {
          workpiece := Some(v.i);
          return Success(());
        }
        return Failure(NoSuchIndex);
      } else if v.Str? {
        if v.s in indexesWp {
          workpiece := Some(indexesWp[v.s]);
          return Success(());
        }
        return Failure(NoSuchName);
      }
      return Failure(NoSuchKind);
    }

    /**
     * The brand guard of `get_material_parameters`: `reload` tells whether
     * the brand was replaced and the characteristics, chemical composition,
     * hardness and tensile strength are to be read again.
     */
    method GetMaterialParameters(b: Value) returns (reload: bool)
      modifies this`brand
      ensures reload <==> ReplacesBrand(old(brand), b)
      ensures brand == if reload then b else old(brand)
    {
      var isNegativeNumber := IsNumber(b) && NumberOf(b) < 0.0;
      var blank := false;
      var k := 0;
      while k < |BlankBrands|
        invariant 0 <= k <= |BlankBrands|
        invariant blank <==> exists j :: 0 <= j < k && Equal(b, BlankBrands[j])
      {
        blank := blank || Equal(b, BlankBrands[k]);
        k := k + 1;
      }
      var newBrandExists := !(blank || b.Nothing? || isNegativeNumber);
      reload := newBrandExists && !Equal(brand, b);
      if reload {
        brand := b;
      }
    }
  }
}
