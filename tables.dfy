/**
 * The table rebuilders of materials/scr/gen_fun.py: `get_hardness` and
 * `get_condition` clean one cell of the legacy text, and
 * `get_table_hardness` and `get_table_tensile_strength` rebuild a
 * condition -> value table from text delimited by ';' (rows) and '/' (items).
 *
 * A pandas table built from a dict of row dicts is modelled as the dict
 * itself: a map from the row key to the row. The keys are inserted in
 * increasing order (a row's key is the position of its first occurrence),
 * so the map loses nothing of the table's row order.
 */
module Tables {
  import opened Wrappers
  import opened PyText

  const HardnessPrefix := "HB 10 -1 ="
  const HardnessMark := "HB 10 -1"
  const MegaPascal := "МПа"
  const SpaceComma := " ,"
  const HardnessWord := "Твердость"
  const MechanicalMark := "еханические свойства"
  const StandardMark := "ГОСТ"

  /** `get_hardness`: drops the "HB 10 -1 =" prefix, the unit and " ,", then strips. */
  function GetHardness(text: string): (r: string)
    ensures Stripped(r)
    ensures |r| <= |text|
  {
    Strip(RemoveAll(RemoveAll(RemoveAll(text, HardnessPrefix), MegaPascal), SpaceComma))
  }

  /** A cell without the prefix, the unit and " ," is only stripped. */
  lemma GetHardnessPlain(text: string)
    requires !Contains(text, HardnessPrefix) && !Contains(text, MegaPascal) && !Contains(text, SpaceComma)
    ensures GetHardness(text) == Strip(text)
  {
    RemoveAllAbsent(text, HardnessPrefix);
    RemoveAllAbsent(text, MegaPascal);
    RemoveAllAbsent(text, SpaceComma);
  }

  /**
   * A cell "HB 10 -1 = <value> МПа" gives back its value (the documented
   * example "HB 10 -1 = 140 - 300 МПа" -> "140 - 300" is one instance).
   */
  lemma GetHardnessOfCell(value: string)
    requires Stripped(value)
    requires HardnessPrefix[0] !in value && MegaPascal[0] !in value && ',' !in value
    ensures GetHardness(HardnessPrefix + " " + value + " " + MegaPascal) == value
  {
    var padded := " " + value + " ";
    var rest := padded + MegaPascal;
    assert HardnessPrefix + " " + value + " " + MegaPascal == HardnessPrefix + rest;
    assert HardnessPrefix[0] !in rest;
    RemoveLeading(HardnessPrefix, rest, 0);
    RemoveTrailing(padded, MegaPascal);
    assert SpaceComma[1] !in padded;
    RemoveAllMissingChar(padded, SpaceComma, 1);
    assert AllSpace(" ");
    StripPadded(" ", value, " ");
  }

  /**
   * `get_condition`: drops the word "Твердость" and the brand; a remainder
   * that is a lone "," stands for the plain hardness and gives "Твердость".
   */
  function GetCondition(brand: string, text: string): (r: string)
    ensures Stripped(r)
    ensures r != ","
    ensures r == HardnessWord || |r| <= |text|
  {
    var rest := Strip(RemoveAll(RemoveAll(text, HardnessWord), brand));
    if rest == "," then HardnessWord else rest
  }

  /** A cell that mentions neither the word nor the brand is only stripped. */
  lemma GetConditionPlain(brand: string, text: string)
    requires !Contains(text, HardnessWord) && !Contains(text, brand)
    requires Strip(text) != ","
    ensures GetCondition(brand, text) == Strip(text)
  {
    RemoveAllAbsent(text, HardnessWord);
    RemoveAllAbsent(text, brand);
  }

  /**
   * A cell "Твердость <brand> <state>" gives the state; a lone "," as the
   * state (the cell "Твердость 20 ," of brand "20") stands for the plain hardness.
   */
  lemma GetConditionOfCell(brand: string, state: string)
    requires Stripped(state)
    requires brand != [] && !IsSpace(brand[0]) && !Contains(state, brand)
    requires !Contains(brand, HardnessWord) && !Contains(state, HardnessWord)
    ensures GetCondition(brand, HardnessWord + " " + brand + " " + state) ==
      if state == "," then HardnessWord else state
  {
    assert ' ' !in HardnessWord;
    RemoveConditionWords(HardnessWord, brand, state);
    assert AllSpace("  ") && AllSpace("");
    assert "  " + state == "  " + state + "";
    StripPadded("  ", state, "");
  }

  /** The word and the brand leave two spaces before the state. */
  lemma RemoveConditionWords(word: string, brand: string, state: string)
    requires word != [] && ' ' !in word
    requires brand != [] && !IsSpace(brand[0]) && !Contains(state, brand)
    requires !Contains(brand, word) && !Contains(state, word)
    ensures RemoveAll(RemoveAll(word + " " + brand + " " + state, word), brand) == "  " + state
  {
    var rest := " " + brand + " " + state;
    assert word + " " + brand + " " + state == word + rest;
    RemoveAllFront(word, rest);
    WordNotInCell(word, brand, state);
    RemoveAllAbsent(rest, word);
    RemoveBrand(brand, state);
  }

  /** Spaces cannot join the brand and the state into the word. */
  lemma WordNotInCell(word: string, brand: string, state: string)
    requires word != [] && ' ' !in word
    requires !Contains(brand, word) && !Contains(state, word)
    ensures !Contains(" " + brand + " " + state, word)
  {
    NotContainsJoin(brand, ' ', state, word);
    NotContainsCons(' ', brand + " " + state, word);
    assert [' '] + (brand + [' '] + state) == " " + brand + " " + state;
  }

  /** The brand after the first space is dropped, and the state after it stays. */
  lemma RemoveBrand(brand: string, state: string)
    requires brand != [] && !IsSpace(brand[0]) && !Contains(state, brand)
    ensures RemoveAll(" " + brand + " " + state, brand) == "  " + state
  {
    var x := " ";
    var tail := " " + state;
    assert brand[0] !in x by { assert IsSpace(' '); }
    RemoveAllSkip(x, brand, tail);
    StateKept(brand, state);
    assert " " + brand + " " + state == x + brand + tail;
    assert x + tail == "  " + state;
  }

  /** A space before the state cannot start the brand, so the state stays. */
  lemma StateKept(brand: string, state: string)
    requires brand != [] && !IsSpace(brand[0]) && !Contains(state, brand)
    ensures RemoveAll(" " + state, brand) == " " + state
  {
    assert IsSpace(' ');
    NotContainsCons(' ', state, brand);
    assert [' '] + state == " " + state;
    RemoveAllAbsent(" " + state, brand);
  }

  // -------------------------------------------------------- table assembly

  /**
   * The dict `data_table` after the first `n` rows: row `k` is stored under
   * `rows.index(rows[k])`, the position of its first occurrence, when its
   * decoding `kept[k]` is kept. A repeated row lands on the key of its first
   * occurrence with the same value, so identical rows collapse.
   */
  function KeptRows<R>(rows: seq<string>, kept: seq<Option<R>>, n: nat): map<nat, R>
    requires |kept| == |rows| && n <= |rows|
  {
    map k: nat | k < n && FirstOccurrence(rows, k) && kept[k].Some? :: kept[k].value
  }

  /** Row decodings that depend only on the row's text. */
  predicate SameTextSameRow<R(==)>(rows: seq<string>, kept: seq<Option<R>>)
    requires |kept| == |rows|
  {
    forall a, b :: 0 <= a < |rows| && 0 <= b < |rows| && rows[a] == rows[b] ==> kept[a] == kept[b]
  }

  /** One more row of the loop: a new key at a first occurrence, no change at a repeat. */
  lemma KeptRowsStep<R>(rows: seq<string>, kept: seq<Option<R>>, i: nat)
    requires |kept| == |rows| && i < |rows|
    requires SameTextSameRow(rows, kept)
    ensures KeptRows(rows, kept, i + 1) ==
      if kept[i].Some? then KeptRows(rows, kept, i)[IndexOf(rows, rows[i]) := kept[i].value]
      else KeptRows(rows, kept, i)
  {
    var key := IndexOf(rows, rows[i]);
    FirstOccurrenceIndex(rows, i);
    var before := KeptRows(rows, kept, i);
    var after := KeptRows(rows, kept, i + 1);
    if kept[i].Some? {
      if key < i {
        assert kept[key] == kept[i];
        assert key in before;
        assert after.Keys == before.Keys;
      } else {
        assert after.Keys == before.Keys + {key};
      }
    } else {
      assert after.Keys == before.Keys;
    }
  }

  /** The table is empty exactly when no row is kept. */
  lemma KeptRowsEmpty<R>(rows: seq<string>, kept: seq<Option<R>>)
    requires |kept| == |rows|
    requires SameTextSameRow(rows, kept)
    ensures KeptRows(rows, kept, |rows|) == map[] <==> forall k :: 0 <= k < |rows| ==> kept[k].None?
  {
    if k :| 0 <= k < |rows| && kept[k].Some? {
      var first := IndexOf(rows, rows[k]);
      FirstOccurrenceIndex(rows, first);
      assert first in KeptRows(rows, kept, |rows|);
    }
  }

  /** Identical rows collapse: only the first of two equal rows can be a key. */
  lemma KeptRowsRepeat<R>(rows: seq<string>, kept: seq<Option<R>>, n: nat, i: nat, j: nat)
    requires |kept| == |rows| && n <= |rows|
    requires i < j < |rows| && rows[i] == rows[j]
    ensures j !in KeptRows(rows, kept, n)
  {
  }

  /** How the table is lost: the two exceptions of `get_table_hardness` and `get_table_tensile_strength`. */
  datatype TableError =
    | InvalidText   // InvalidValue: an item with neither the mark nor the brand
    | EmptyTable    // ReceivedEmptyDataFrame: no row with a value

  // ---------------------------------------------------------------- hardness

  /** The dict `data_row` of `get_table_hardness`: which of its two keys are set. */
  datatype HardnessRow = HardnessRow(hardness: Option<string>, condition: Option<string>)

  /** The items the two keys of a row dict were last set from, before cleaning. */
  datatype HardnessItems = HardnessItems(hardnessItem: Option<string>, conditionItem: Option<string>)

  /** An item is accepted when it holds the hardness mark or the brand. */
  predicate HardnessItemAccepted(brand: string, item: string) {
    Contains(item, HardnessMark) || Contains(item, brand)
  }

  /** One '/'-item applied to the row dict built so far; `None` where the source raises InvalidValue. */
  function HardnessItem(brand: string, item: string, row: HardnessRow): Option<HardnessRow> {
    if Contains(item, HardnessMark) then Some(row.(hardness := Some(GetHardness(item))))
    else if Contains(item, brand) then Some(row.(condition := Some(GetCondition(brand, item))))
    else None
  }

  /** Which item each key of the row dict was last set from, after the items in order. */
  function ScanHardnessItems(brand: string, items: seq<string>): Option<HardnessItems>
    decreases |items|
  {
    if items == [] then Some(HardnessItems(None, None))
    else match ScanHardnessItems(brand, items[..|items| - 1])
      case None => None
      case Some(seen) =>
        var item := items[|items| - 1];
        if Contains(item, HardnessMark) then Some(seen.(hardnessItem := Some(item)))
        else if Contains(item, brand) then Some(seen.(conditionItem := Some(item)))
        else None
  }

  /** The row dict whose keys hold the cleaned text of the items they were last set from. */
  function CleanHardnessItems(brand: string, seen: HardnessItems): HardnessRow {
    HardnessRow(
      if seen.hardnessItem.Some? then Some(GetHardness(seen.hardnessItem.value)) else None,
      if seen.conditionItem.Some? then Some(GetCondition(brand, seen.conditionItem.value)) else None)
  }

  /** The row dict built from the '/'-items of a row; `None` where the source raises InvalidValue. */
  function DecodeHardnessItems(brand: string, items: seq<string>): Option<HardnessRow> {
    match ScanHardnessItems(brand, items)
    case None => None
    case Some(seen) => Some(CleanHardnessItems(brand, seen))
  }

  function DecodeHardnessRow(brand: string, row: string): Option<HardnessRow> {
    DecodeHardnessItems(brand, Split(row, '/'))
  }

  /** One more item of the row: the key it sets, or the rejection. */
  lemma ScanHardnessItemsNext(brand: string, items: seq<string>, j: nat, seen: HardnessItems)
    requires j < |items| && ScanHardnessItems(brand, items[..j]) == Some(seen)
    ensures Contains(items[j], HardnessMark) ==>
      ScanHardnessItems(brand, items[..j + 1]) == Some(seen.(hardnessItem := Some(items[j])))
    ensures !Contains(items[j], HardnessMark) && Contains(items[j], brand) ==>
      ScanHardnessItems(brand, items[..j + 1]) == Some(seen.(conditionItem := Some(items[j])))
    ensures !HardnessItemAccepted(brand, items[j]) ==> ScanHardnessItems(brand, items[..j + 1]).None?
  {
    assert items[..j + 1][..j] == items[..j];
    assert items[..j + 1][j] == items[j];
  }

  /** A row decodes exactly when every one of its items is accepted. */
  lemma {:induction false} ScanHardnessItemsAccepted(brand: string, items: seq<string>)
    ensures ScanHardnessItems(brand, items).Some? <==>
      forall k :: 0 <= k < |items| ==> HardnessItemAccepted(brand, items[k])
    decreases |items|
  {
    if items != [] {
      var init := items[..|items| - 1];
      ScanHardnessItemsAccepted(brand, init);
      assert forall k :: 0 <= k < |init| ==> init[k] == items[k];
    }
  }

  /** Once an item is rejected, the rest of the row does not matter. */
  lemma ScanHardnessPrefixRejected(brand: string, items: seq<string>, j: nat)
    requires j <= |items|
    requires ScanHardnessItems(brand, items[..j]).None?
    ensures ScanHardnessItems(brand, items).None?
  {
    ScanHardnessItemsAccepted(brand, items[..j]);
    ScanHardnessItemsAccepted(brand, items);
    var k :| 0 <= k < j && !HardnessItemAccepted(brand, items[..j][k]);
    assert items[k] == items[..j][k];
  }

  /** In an accepted row, the hardness comes from the last item carrying the mark. */
  lemma {:induction false} HardnessIsLast(brand: string, items: seq<string>, k: nat)
    requires ScanHardnessItems(brand, items).Some?
    requires k < |items| && Contains(items[k], HardnessMark)
    requires forall j :: k < j < |items| ==> !Contains(items[j], HardnessMark)
    ensures ScanHardnessItems(brand, items).value.hardnessItem == Some(items[k])
    decreases |items|
  {
    var n := |items| - 1;
    if k < n {
      var init := items[..n];
      assert forall j :: k <= j < n ==> init[j] == items[j];
      HardnessIsLast(brand, init, k);
    }
  }

  /** An accepted row without an item carrying the mark has no hardness. */
  lemma {:induction false} HardnessAbsent(brand: string, items: seq<string>)
    requires ScanHardnessItems(brand, items).Some?
    requires forall j :: 0 <= j < |items| ==> !Contains(items[j], HardnessMark)
    ensures ScanHardnessItems(brand, items).value.hardnessItem.None?
    decreases |items|
  {
    if items != [] {
      HardnessAbsent(brand, items[..|items| - 1]);
    }
  }

  /**
   * In an accepted row, the condition comes from the last item without the
   * mark (which therefore holds the brand), cleaned by `get_condition`.
   */
  lemma {:induction false} HardnessConditionIsLast(brand: string, items: seq<string>, k: nat)
    requires ScanHardnessItems(brand, items).Some?
    requires k < |items| && !Contains(items[k], HardnessMark)
    requires forall j :: k < j < |items| ==> Contains(items[j], HardnessMark)
    ensures ScanHardnessItems(brand, items).value.conditionItem == Some(items[k])
    ensures DecodeHardnessItems(brand, items).Some?
    ensures DecodeHardnessItems(brand, items).value.condition == Some(GetCondition(brand, items[k]))
    decreases |items|
  {
    var n := |items| - 1;
    if k < n {
      var init := items[..n];
      assert forall j :: k <= j < n ==> init[j] == items[j];
      HardnessConditionIsLast(brand, init, k);
    }
  }

  /** A row whose every item carries the mark has no condition. */
  lemma {:induction false} HardnessConditionAbsent(brand: string, items: seq<string>)
    requires forall j :: 0 <= j < |items| ==> Contains(items[j], HardnessMark)
    ensures ScanHardnessItems(brand, items).Some?
    ensures DecodeHardnessItems(brand, items).Some? && DecodeHardnessItems(brand, items).value.condition.None?
    decreases |items|
  {
    if items != [] {
      HardnessConditionAbsent(brand, items[..|items| - 1]);
    }
  }

  /** What `get_table_hardness` keeps of one ';'-row: its row dict, when it has a hardness. */
  function KeepHardness(brand: string, row: string): Option<HardnessRow> {
    var decoded := DecodeHardnessRow(brand, row);
    if decoded.Some? && decoded.value.hardness.Some? then decoded else None
  }

  function KeptHardness(brand: string, rows: seq<string>): (kept: seq<Option<HardnessRow>>)
    ensures |kept| == |rows| && SameTextSameRow(rows, kept)
    ensures forall k :: 0 <= k < |rows| ==> kept[k] == KeepHardness(brand, rows[k])
  {
    seq(|rows|, k requires 0 <= k < |rows| => KeepHardness(brand, rows[k]))
  }

  /** Every item of every row holds the hardness mark or the brand. */
  predicate RowsAccepted(brand: string, rows: seq<string>) {
    forall k :: 0 <= k < |rows| ==> DecodeHardnessRow(brand, rows[k]).Some?
  }

  /** The table `get_table_hardness` specifies for a brand and the ';'-rows of its hardness text. */
  function HardnessTable(brand: string, rows: seq<string>): (r: Result<map<nat, HardnessRow>, TableError>)
    ensures r == Failure(InvalidText) <==> !RowsAccepted(brand, rows)
    ensures r == Failure(EmptyTable) <==>
      && RowsAccepted(brand, rows)
      && forall k :: 0 <= k < |rows| ==> DecodeHardnessRow(brand, rows[k]).value.hardness.None?
    ensures r.Success? ==> forall k :: k in r.value ==>
      && k < |rows|
      && FirstOccurrence(rows, k)
      && KeepHardness(brand, rows[k]) == Some(r.value[k])
    ensures RowsAccepted(brand, rows) ==> forall k :: 0 <= k < |rows| && FirstOccurrence(rows, k) && KeepHardness(brand, rows[k]).Some? ==>
      r.Success? && k in r.value
  {
    if !RowsAccepted(brand, rows) then Failure(InvalidText)
    else
      var kept := KeptHardness(brand, rows);
      KeptRowsEmpty(rows, kept);
      var table := KeptRows(rows, kept, |rows|);
      if table == map[] then Failure(EmptyTable) else Success(table)
  }

  /** One accepted row of the loop: its dict goes in under its first occurrence when it has a hardness. */
  lemma HardnessTableStep(brand: string, rows: seq<string>, i: nat)
    requires i < |rows| && DecodeHardnessRow(brand, rows[i]).Some?
    ensures KeptRows(rows, KeptHardness(brand, rows), i + 1) ==
      if DecodeHardnessRow(brand, rows[i]).value.hardness.Some? then
        KeptRows(rows, KeptHardness(brand, rows), i)[IndexOf(rows, rows[i]) := DecodeHardnessRow(brand, rows[i]).value]
      else KeptRows(rows, KeptHardness(brand, rows), i)
  {
    var kept := KeptHardness(brand, rows);
    assert kept[i] == KeepHardness(brand, rows[i]);
    KeptRowsStep(rows, kept, i);
  }

  /** With every row accepted, the table is the kept rows, or the empty-table error. */
  lemma HardnessTableAccepted(brand: string, rows: seq<string>)
    requires RowsAccepted(brand, rows)
    ensures var table := KeptRows(rows, KeptHardness(brand, rows), |rows|);
      HardnessTable(brand, rows) == if table == map[] then Failure(EmptyTable) else Success(table)
  {
  }

  /** Identical rows of the text collapse into the entry of the first one. */
  lemma HardnessTableRepeat(brand: string, rows: seq<string>, i: nat, j: nat)
    requires i < j < |rows| && rows[i] == rows[j]
    ensures HardnessTable(brand, rows).Success? ==> j !in HardnessTable(brand, rows).value
  {
    KeptRowsRepeat(rows, KeptHardness(brand, rows), |rows|, i, j);
  }

  /**
   * An empty ';'-row (a trailing ';', or ";;") splits into the one item "",
   * which holds neither the mark nor a non-empty brand: the whole text is
   * rejected.
   */
  lemma EmptyRowRejected(brand: string, rows: seq<string>, k: nat)
    requires brand != [] && k < |rows| && rows[k] == ""
    ensures HardnessTable(brand, rows) == Failure(InvalidText)
  {
    SplitNoSeparator("", '/');
    var items := Split("", '/');
    assert items == [""];
    if Contains("", brand) {
      ContainsShorter("", brand);
    }
    if Contains("", HardnessMark) {
      ContainsShorter("", HardnessMark);
    }
    assert !HardnessItemAccepted(brand, items[0]);
    ScanHardnessItemsAccepted(brand, items);
  }

  /**
   * `get_table_hardness`: for every ';'-row, every '/'-item must hold the
   * hardness mark or the brand; rows with a hardness are stored under the
   * index of their first occurrence; an empty table raises.
   */
  method GetTableHardness(brand: string, text: string) returns (r: Result<map<nat, HardnessRow>, TableError>)
    ensures r == HardnessTable(brand, Split(text, ';'))
  {
    var rows := Split(text, ';');
    ghost var kept := KeptHardness(brand, rows);
    var table: map<nat, HardnessRow> := map[];
    for i := 0 to |rows|
      invariant forall k :: 0 <= k < i ==> DecodeHardnessRow(brand, rows[k]).Some?
      invariant table == KeptRows(rows, kept, i)
    {
      var row := rows[i];
      var dataRow := DecodeHardnessRowItems(brand, row);
      if dataRow.None? {
        assert !RowsAccepted(brand, rows);
        return Failure(InvalidText);
      }
      HardnessTableStep(brand, rows, i);
      if dataRow.value.hardness.Some? {
        table := table[IndexOf(rows, row) := dataRow.value];
      }
    }
    assert RowsAccepted(brand, rows);
    HardnessTableAccepted(brand, rows);
    if table == map[] {
      return Failure(EmptyTable);
    }
    return Success(table);
  }

  /** The inner loop of `get_table_hardness`: the row dict of one ';'-row, `None` where it raises. */
  method DecodeHardnessRowItems(brand: string, row: string) returns (dataRow: Option<HardnessRow>)
    ensures dataRow == DecodeHardnessRow(brand, row)
  {
    var data := HardnessRow(None, None);
    ghost var seen := HardnessItems(None, None);
    var items := Split(row, '/');
    for j := 0 to |items|
      invariant ScanHardnessItems(brand, items[..j]) == Some(seen)
      invariant data == CleanHardnessItems(brand, seen)
    {
      var item := items[j];
      ScanHardnessItemsNext(brand, items, j, seen);
      if Contains(item, HardnessMark) {
        data := data.(hardness := Some(GetHardness(item)));
        seen := seen.(hardnessItem := Some(item));
      } else if Contains(item, brand) {
        data := data.(condition := Some(GetCondition(brand, item)));
        seen := seen.(conditionItem := Some(item));
      } else {
        ScanHardnessPrefixRejected(brand, items, j + 1);
        return None;
      }
    }
    assert items[..|items|] == items;
    return Some(data);
  }

  // -------------------------------------------------------- tensile strength

  /** The dict `data_row` of `get_table_tensile_strength`. */
  datatype TensileRow = TensileRow(condition: Option<string>, tensileStrength: Option<string>)

  /** An item that is kept at all: not empty and not the "mechanical properties" heading. */
  predicate TensileItemKept(item: string) {
    !Contains(item, MechanicalMark) && item != ""
  }

  /** An item that becomes the tensile strength. */
  predicate StrengthItem(item: string) {
    TensileItemKept(item) && !Contains(item, StandardMark)
  }

  /** One '/'-item applied to the row dict built so far: a standard is the condition, anything else the value. */
  function TensileItem(item: string, row: TensileRow): TensileRow {
    if !TensileItemKept(item) then row
    else if Contains(item, StandardMark) then row.(condition := Some(item))
    else row.(tensileStrength := Some(item))
  }

  function DecodeTensileItems(items: seq<string>): TensileRow
    decreases |items|
  {
    if items == [] then TensileRow(None, None)
    else TensileItem(items[|items| - 1], DecodeTensileItems(items[..|items| - 1]))
  }

  /** The row dict built from one ';'-row, stripped and split on '/'. */
  function DecodeTensileRow(row: string): TensileRow {
    DecodeTensileItems(Split(Strip(row), '/'))
  }

  /** The last value item wins. */
  lemma {:induction false} TensileStrengthIsLast(items: seq<string>, k: nat)
    requires k < |items| && StrengthItem(items[k])
    requires forall j :: k < j < |items| ==> !StrengthItem(items[j])
    ensures DecodeTensileItems(items).tensileStrength == Some(items[k])
    decreases |items|
  {
    var n := |items| - 1;
    var init := items[..n];
    assert DecodeTensileItems(items) == TensileItem(items[n], DecodeTensileItems(init));
    if k < n {
      assert forall j :: k <= j < n ==> init[j] == items[j];
      TensileStrengthIsLast(init, k);
    }
  }

  /** Without a value item, the row has no tensile strength. */
  lemma {:induction false} TensileStrengthAbsent(items: seq<string>)
    requires forall j :: 0 <= j < |items| ==> !StrengthItem(items[j])
    ensures DecodeTensileItems(items).tensileStrength.None?
    decreases |items|
  {
    if items != [] {
      TensileStrengthAbsent(items[..|items| - 1]);
    }
  }

  /** The condition is the last kept item naming a standard. */
  lemma {:induction false} TensileConditionIsLast(items: seq<string>, k: nat)
    requires k < |items| && TensileItemKept(items[k]) && Contains(items[k], StandardMark)
    requires forall j :: k < j < |items| ==> !(TensileItemKept(items[j]) && Contains(items[j], StandardMark))
    ensures DecodeTensileItems(items).condition == Some(items[k])
    decreases |items|
  {
    var n := |items| - 1;
    var init := items[..n];
    assert DecodeTensileItems(items) == TensileItem(items[n], DecodeTensileItems(init));
    if k < n {
      assert forall j :: k <= j < n ==> init[j] == items[j];
      TensileConditionIsLast(init, k);
    }
  }

  /** Without a kept item naming a standard, the row has no condition. */
  lemma {:induction false} TensileConditionAbsent(items: seq<string>)
    requires forall j :: 0 <= j < |items| ==> !(TensileItemKept(items[j]) && Contains(items[j], StandardMark))
    ensures DecodeTensileItems(items).condition.None?
    decreases |items|
  {
    if items != [] {
      TensileConditionAbsent(items[..|items| - 1]);
    }
  }

  /** What `get_table_tensile_strength` keeps of one ';'-row: its row dict, when it has a value. */
  function KeepTensile(row: string): Option<TensileRow> {
    var decoded := DecodeTensileRow(row);
    if decoded != TensileRow(None, None) && decoded.tensileStrength.Some? then Some(decoded) else None
  }

  function KeptTensile(rows: seq<string>): (kept: seq<Option<TensileRow>>)
    ensures |kept| == |rows| && SameTextSameRow(rows, kept)
    ensures forall k :: 0 <= k < |rows| ==> kept[k] == KeepTensile(rows[k])
  {
    seq(|rows|, k requires 0 <= k < |rows| => KeepTensile(rows[k]))
  }

  /** The table `get_table_tensile_strength` specifies for the ';'-rows of its text. */
  function TensileTable(rows: seq<string>): (r: Result<map<nat, TensileRow>, TableError>)
    ensures r.Failure? ==> r.error == EmptyTable
    ensures r.Failure? <==> forall k :: 0 <= k < |rows| ==> KeepTensile(rows[k]).None?
    ensures r.Success? ==> forall k :: k in r.value ==>
      && k < |rows|
      && FirstOccurrence(rows, k)
      && KeepTensile(rows[k]) == Some(r.value[k])
      && r.value[k].tensileStrength.Some?
    ensures forall k :: 0 <= k < |rows| && FirstOccurrence(rows, k) && KeepTensile(rows[k]).Some? ==>
      r.Success? && k in r.value
  {
    var kept := KeptTensile(rows);
    KeptRowsEmpty(rows, kept);
    var table := KeptRows(rows, kept, |rows|);
    if table == map[] then Failure(EmptyTable) else Success(table)
  }

  /**
   * `get_table_tensile_strength`: items naming a standard ("ГОСТ") give the
   * condition, other non-empty items the value (the last one wins); rows
   * without a value are dropped; a table without rows raises.
   */
  method GetTableTensileStrength(text: string) returns (r: Result<map<nat, TensileRow>, TableError>)
    ensures r == TensileTable(Split(text, ';'))
  {
    var rows := Split(text, ';');
    ghost var kept := KeptTensile(rows);
    var table: map<nat, TensileRow> := map[];
    for i := 0 to |rows|
      invariant table == KeptRows(rows, kept, i)
    {
      var row := rows[i];
      var dataRow := DecodeTensileRowItems(row);
      KeptRowsStep(rows, kept, i);
      if dataRow != TensileRow(None, None) && dataRow.tensileStrength.Some? {
        table := table[IndexOf(rows, row) := dataRow];
      }
    }
    if |table| != 0 {
      return Success(table);
    }
    return Failure(EmptyTable);
  }

  /** The inner loop of `get_table_tensile_strength`: the row dict of one ';'-row. */
  method DecodeTensileRowItems(row: string) returns (dataRow: TensileRow)
    ensures dataRow == DecodeTensileRow(row)
  {
    dataRow := TensileRow(None, None);
    var items := Split(Strip(row), '/');
    for j := 0 to |items|
      invariant dataRow == DecodeTensileItems(items[..j])
    {
      var item := items[j];
      assert items[..j + 1][..j] == items[..j];
      if !Contains(item, MechanicalMark) {
        if item != "" {
          if Contains(item, StandardMark) {
            dataRow := dataRow.(condition := Some(item));
          } else {
            dataRow := dataRow.(tensileStrength := Some(item));
          }
        }
      }
    }
    assert items[..|items|] == items;
  }
}
