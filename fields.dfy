/**
 * `ValueFromDict.validate` (materials/obj/fields_types.py): a field whose
 * value must come from a lookup table of available values. The field
 * accepts a key of the table or one of its names and normalises either to
 * the key.
 *
 * A lookup table is a Python dict from int keys to names. Its iteration
 * order is insertion order, so it is modelled as the sequence of its
 * entries with pairwise distinct keys. The three tables the subclasses use
 * (CLASSES_MATERIALS, HEAT_TREATMENT, WORKPIECE) live in
 * materials/obj/constants, which is not part of this model; every member
 * here takes the table as a parameter, and each subclass is `Validate`
 * applied to its own table.
 */
module FieldsTypes {
  import opened Wrappers
  import opened PyValue

  /** One `key: name` item of a lookup table. */
  datatype Entry = Entry(key: int, name: string)

  /** A dict: no key appears twice. */
  predicate IsDict(t: seq<Entry>) {
    forall i, j :: 0 <= i < j < |t| ==> t[i].key != t[j].key
  }

  type Table = t: seq<Entry> | IsDict(t) witness []

  /** `key in table`. */
  predicate HasKey(t: Table, k: int) {
    exists i :: 0 <= i < |t| && t[i].key == k
  }

  /** `name in table.values()`. */
  predicate HasName(t: seq<Entry>, s: string) {
    exists i :: 0 <= i < |t| && t[i].name == s
  }

  /** `table[k]` for a key that is present. */
  function Lookup(t: Table, k: int): (s: string)
    requires HasKey(t, k)
    ensures exists i :: 0 <= i < |t| && t[i].key == k && t[i].name == s
    decreases |t|
  {
    if t[0].key == k then t[0].name
    else
      assert HasKey(t[1..], k) by {
        var i :| 0 <= i < |t| && t[i].key == k;
        assert t[1..][i - 1].key == k;
      }
      Lookup(t[1..], k)
  }

  /** Index `i` is the last entry of the table whose name is `s`. */
  predicate LastWithName(t: seq<Entry>, s: string, i: int) {
    && 0 <= i < |t|
    && t[i].name == s
    && forall j :: i < j < |t| ==> t[j].name != s
  }

  /**
   * `{v: k for k, v in table.items()}`: the inverse dict, built in the
   * table's order, so a later key overwrites an earlier one of the same name.
   */
  function Inverse(t: seq<Entry>): (inv: map<string, int>)
    decreases |t|
  {
    if t == [] then map[]
    else Inverse(t[..|t| - 1])[t[|t| - 1].name := t[|t| - 1].key]
  }

  /** The names of the inverse are exactly the names of the table. */
  lemma {:induction false} InverseDomain(t: seq<Entry>, s: string)
    ensures s in Inverse(t) <==> HasName(t, s)
    decreases |t|
  {
    if t != [] {
      var init := t[..|t| - 1];
      InverseDomain(init, s);
      if HasName(t, s) && s != t[|t| - 1].name {
        var i :| 0 <= i < |t| && t[i].name == s;
        assert init[i].name == s;
      }
      if HasName(init, s) {
        var i :| 0 <= i < |init| && init[i].name == s;
        assert t[i].name == s;
      }
    }
  }

  /** A name of the inverse maps to the key of the table's last entry with that name. */
  lemma {:induction false} InverseLast(t: seq<Entry>, s: string)
    requires s in Inverse(t)
    ensures exists i :: LastWithName(t, s, i) && t[i].key == Inverse(t)[s]
    decreases |t|
  {
    var init := t[..|t| - 1];
    if s == t[|t| - 1].name {
      assert LastWithName(t, s, |t| - 1);
    } else {
      InverseLast(init, s);
      var i :| LastWithName(init, s, i) && init[i].key == Inverse(init)[s];
      assert LastWithName(t, s, i);
    }
  }

  /** Why `validate` rejects a value. */
  datatype ValidateError =
    | NotIntOrStr   // neither an int nor a str
    | UnknownName   // a str that is none of the table's names
    | UnknownKey    // an int that is none of the table's keys

  /**
   * `ValueFromDict.validate` with `AVAILABLE_VALUES == t`: the key a value
   * stands for, or the `ValueError` it raises.
   */
  function Validate(t: Table, v: Value): (r: Result<int, ValidateError>)
    ensures !v.Int? && !v.Str? ==> r == Failure(NotIntOrStr)
    ensures v.Str? ==> (r.Success? <==> HasName(t, v.s))
    ensures v.Str? && !HasName(t, v.s) ==> r == Failure(UnknownName)
    ensures v.Str? && r.Success? ==> exists i :: LastWithName(t, v.s, i) && t[i].key == r.value
    ensures v.Int? ==> (r.Success? <==> HasKey(t, v.i))
    ensures v.Int? && HasKey(t, v.i) ==> r == Success(v.i)
    ensures v.Int? && !HasKey(t, v.i) ==> r == Failure(UnknownKey)
  {
    match v
    case Str(s) =>
      InverseDomain(t, s);
      if !HasName(t, s) then Failure(UnknownName)
      else
        InverseLast(t, s);
        Success(Inverse(t)[s])
    case Int(k) =>
      if !HasKey(t, k) then Failure(UnknownKey) else Success(k)
    case _ => Failure(NotIntOrStr)
  }

  /** Whatever `validate` returns is a key of the table, and a name maps to a key carrying that name. */
  lemma ValidateGivesKey(t: Table, v: Value)
    requires Validate(t, v).Success?
    ensures HasKey(t, Validate(t, v).value)
    ensures v.Str? ==> Lookup(t, Validate(t, v).value) == v.s
  {
    var k := Validate(t, v).value;
    if v.Str? {
      var i :| LastWithName(t, v.s, i) && t[i].key == k;
      KeyIndex(t, k, i);
    }
  }

  /** In a dict, the entry holding a key is the one `table[key]` reads. */
  lemma KeyIndex(t: Table, k: int, i: int)
    requires 0 <= i < |t| && t[i].key == k
    ensures HasKey(t, k) && Lookup(t, k) == t[i].name
  {
    assert HasKey(t, k);
    var j :| 0 <= j < |t| && t[j].key == k && t[j].name == Lookup(t, k);
    assert i == j;
  }

  /** Validating the result again returns it unchanged. */
  lemma ValidateIdempotent(t: Table, v: Value)
    requires Validate(t, v).Success?
    ensures Validate(t, Int(Validate(t, v).value)) == Validate(t, v)
  {
    ValidateGivesKey(t, v);
  }

  /** The key a name validates to is the key of the last entry carrying that name. */
  lemma NameGivesLastKey(t: Table, s: string) returns (m: int)
    requires HasName(t, s)
    ensures Validate(t, Str(s)).Success?
    ensures LastWithName(t, s, m) && t[m].key == Validate(t, Str(s)).value
  {
    InverseDomain(t, s);
    InverseLast(t, s);
    assert Validate(t, Str(s)) == Success(Inverse(t)[s]);
    m :| LastWithName(t, s, m) && t[m].key == Inverse(t)[s];
  }

  /**
   * A name shared by two keys validates to the later one: the earlier key
   * cannot be reached by its name.
   */
  lemma SharedNameGivesLastKey(t: Table, i: int, j: int)
    requires 0 <= i < j < |t| && t[i].name == t[j].name
    ensures Validate(t, Str(t[i].name)) != Success(t[i].key)
  {
    var s := t[i].name;
    assert HasName(t, s);
    var m := NameGivesLastKey(t, s);
    assert i < j <= m;
  }

  /** A name held by one key only validates to that key: name and key round-trip. */
  lemma NameKeyRoundTrip(t: Table, k: int)
    requires HasKey(t, k)
    requires forall i, j :: 0 <= i < j < |t| ==> t[i].name != t[j].name
    ensures Validate(t, Str(Lookup(t, k))) == Success(k)
  {
    var s := Lookup(t, k);
    var i :| 0 <= i < |t| && t[i].key == k && t[i].name == s;
    assert HasName(t, s);
    var m := NameGivesLastKey(t, s);
  }
}
