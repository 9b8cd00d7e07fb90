# materials: decoding, validation and update rules, in Dafny

`materials` is a Python package that looks up the properties of an
engineering material: its hardness and tensile strength in various
delivery conditions, its heat treatment and the surface type of the
workpiece. A legacy database holds these tables as single text cells. Rows
are delimited by ';' and items by '/', for example
`"Твердость 20 ,/HB 10 -1 = 126 - 178 МПа;..."`. The package rebuilds
tables from that text, turns range texts such as `"2.3-2.9"` into
`(min, max)` pairs, and validates the values its objects may be given.

This project models that core and proves properties of it:

- `Ranges` (ranges.dfy): `get_range`, `get_range_for_list` and
  `get_range_for_str` from `materials/scr/gen_fun.py`.
- `Tables` (tables.dfy): `get_hardness`, `get_condition`,
  `get_table_hardness` and `get_table_tensile_strength` from the same file.
  The tables they build are modelled as maps from row key to row dict.
- `Patterns` (patterns.dfy): the three `re.search` patterns
  `\d{1,4} - \d{1,4}`, `\d{1,4}-\d{1,4}` and `\d{1,4}`. They are tried in
  that order with leftmost-match semantics.
- `Find` (find.dfy): the decoding loops of `hardness` and
  `tensile_strength` in `materials/find.py`. Both decoders take a
  `Frame` parameter. `AsWritten` is what the code does: the pandas
  length check on range rows, and the blank-removal pass that removes
  from the list it walks. `Intended` is the evident intent (see
  "## Findings").
- `FieldsTypes` (fields.dfy): `ValueFromDict.validate` and its three
  subclasses from `materials/obj/fields_types.py`.
- `Interfaces` (interfaces.dfy): the validated setters and `_parameters`
  of `IHrc`, `IWorkpiece` and `IHeatTreatment` from
  `materials/obj/interfaces.py`. They are classes whose setters update
  one field.
- `MaterialState` (material.dfy): `update_heat_treatment`,
  `update_workpiece` and the brand guard of `get_material_parameters` from
  `materials/obj/material.py`, on a `Material` class.

The shared modules hold no source logic:

- `Wrappers`: `Option` and `Result`.
- `PyValue`: a dynamically typed Python value and Python's `==` on it.
- `PyText`: `str.strip`, `split`, `join`, `find`, `replace(x, "")` and
  `list.index`, with their laws.

Python exceptions are `Failure` values. `None` is `Option.None` or
`Value.Nothing`.

## Model

| member | source | states |
|---|---|---|
| Ranges.ListRange | materials/scr/gen_fun.py:178-197 | a list whose length is not 2 fails; a 2-list succeeds iff both elements are numbers (a str through `float`); the result is (min, max), lo <= hi, and {lo, hi} is the set of the two numbers |
| Ranges.GetRangeForList | materials/scr/gen_fun.py:178-197 | the loop that converts and appends each element returns exactly ListRange |
| Ranges.GetRangeForStr | materials/scr/gen_fun.py:200-224 | a text `float` accepts gives (x, x); both '-' and ',' present raises; neither raises; a split that does not give two parts raises; never the not-a-range error; lo <= hi |
| Ranges.RangeForStrOfTwoParts | materials/scr/gen_fun.py:216-224 | "a-b" or "a,b" with a single separator is the list range of [a, b] |
| Ranges.GetRange | materials/scr/gen_fun.py:165-175 | raises the not-a-range error iff the value is not a str, tuple or list; tuples and lists go to ListRange, strs to GetRangeForStr |
| Tables.GetHardness | materials/scr/gen_fun.py:140-149 | the result is stripped and no longer than the cell |
| Tables.GetHardnessPlain | materials/scr/gen_fun.py:146-149 | a cell without the prefix, the unit and " ," is only stripped |
| Tables.GetHardnessOfCell | materials/scr/gen_fun.py:140-149 | "HB 10 -1 = <value> МПа" gives back <value> |
| Tables.GetCondition | materials/scr/gen_fun.py:152-162 | the result is stripped, never ",", and either "Твердость" or no longer than the cell |
| Tables.GetConditionPlain | materials/scr/gen_fun.py:158-162 | a cell mentioning neither the word nor the brand is only stripped |
| Tables.GetConditionOfCell | materials/scr/gen_fun.py:152-162 | "Твердость <brand> <state>" gives <state>, and "," as the state gives "Твердость", for any brand (Cyrillic letters included) in which, as in the state, the word "Твердость" does not occur |
| Tables.KeptRowsStep | materials/scr/gen_fun.py:93-104 | one loop step adds the row under its first-occurrence index, or changes nothing on a repeat |
| Tables.KeptRowsEmpty | materials/scr/gen_fun.py:105-107 | the table is empty iff no row is kept |
| Tables.KeptRowsRepeat | materials/scr/gen_fun.py:104 | of two identical rows only the first can be a key |
| Tables.ScanHardnessItemsAccepted | materials/scr/gen_fun.py:96-102 | a row decodes iff every '/'-item holds the mark "HB 10 -1" or the brand |
| Tables.ScanHardnessPrefixRejected | materials/scr/gen_fun.py:101-102 | once an item is rejected, the rest of the row does not matter |
| Tables.HardnessConditionIsLast | materials/scr/gen_fun.py:96-100 | in an accepted row, the condition is `get_condition` of the last item without the mark |
| Tables.HardnessConditionAbsent | materials/scr/gen_fun.py:96-100 | a row whose every item carries the mark is accepted and has no condition |
| Tables.HardnessIsLast | materials/scr/gen_fun.py:97-98 | the hardness comes from the last item carrying the mark |
| Tables.HardnessAbsent | materials/scr/gen_fun.py:103 | a row without a marked item has no hardness |
| Tables.HardnessTable | materials/scr/gen_fun.py:84-108 | InvalidValue iff some item of some row is rejected; the empty-table error iff all are accepted and none has a hardness; every key is a first occurrence whose row is that row's dict; when every row is accepted, every first-occurrence row with a hardness is a key |
| Tables.HardnessTableRepeat | materials/scr/gen_fun.py:104 | identical rows collapse into the first one's entry |
| Tables.EmptyRowRejected | materials/scr/gen_fun.py:91-102 | with a non-empty brand, an empty ';'-row (a trailing ';') makes the whole text raise InvalidValue |
| Tables.HardnessTableStep | materials/scr/gen_fun.py:103-104 | one accepted row goes into the table under its first occurrence exactly when it has a hardness |
| Tables.GetTableHardness | materials/scr/gen_fun.py:84-108 | the nested loops return HardnessTable of the ';'-split text |
| Tables.ScanHardnessItemsNext | materials/scr/gen_fun.py:96-102 | one more item: a marked item sets the hardness, else an item with the brand sets the condition, else the row is rejected |
| Tables.DecodeHardnessRowItems | materials/scr/gen_fun.py:94-102 | the inner loop returns the row dict of one row, or the InvalidValue failure |
| Tables.TensileStrengthIsLast | materials/scr/gen_fun.py:122-128 | the tensile strength is the last non-empty item that names no standard |
| Tables.TensileStrengthAbsent | materials/scr/gen_fun.py:129 | a row without such an item has no tensile strength |
| Tables.TensileConditionIsLast | materials/scr/gen_fun.py:122-126 | the condition is the last non-empty item that names "ГОСТ" and is not a "еханические свойства" heading |
| Tables.TensileConditionAbsent | materials/scr/gen_fun.py:122-126 | a row without such an item has no condition |
| Tables.TensileTable | materials/scr/gen_fun.py:111-137 | fails only with the empty-table error, and exactly when no row has a tensile strength; every key is a first occurrence whose row is that row's dict; every first-occurrence row with a tensile strength is a key |
| Tables.GetTableTensileStrength | materials/scr/gen_fun.py:111-137 | the nested loops return TensileTable of the ';'-split text |
| Tables.DecodeTensileRowItems | materials/scr/gen_fun.py:120-128 | the inner loop returns the row dict of the stripped row |
| Patterns.NumberAt | materials/find.py:205-208 | the number `\d{1,4}` reads is at most 9999 |
| Patterns.SearchRange | materials/find.py:193-204 | the leftmost position where a range pattern matches, or none anywhere |
| Patterns.SearchDigit | materials/find.py:205-208 | the leftmost digit, or no digit at all |
| Patterns.RangeValueAt | materials/find.py:195-198 | a matched range gives two numbers of at most four digits |
| Patterns.MatchValue | materials/find.py:193-208 | nothing matches iff the text has no digit; every number has at most four digits |
| Patterns.MatchValuePrecedence | materials/find.py:193-208 | the leftmost "a - b" if there is one, else the leftmost "a-b", else the number at the leftmost digit; a single number is returned only when no range matches anywhere |
| Patterns.SpacedRangeExample | materials/find.py:193-198 | "126 - 178" gives [126, 178] |
| Patterns.RangeExample | materials/find.py:199-204 | "126-178" gives [126, 178] |
| Patterns.NumberExample | materials/find.py:205-208 | " 126 " gives 126 |
| Patterns.NoRangeWithout | materials/find.py:193-204 | a text lacking a character of the separator matches no range with it |
| Find.StoredText | materials/find.py:166-179 | no row, or a NULL text, raises ReceivedEmptyDataFrame; more than one row raises UnexpectedDataInDataFrame; otherwise the one text |
| Find.ValueOrStale | materials/find.py:193-208 | a match gives its value; without one the previous `result` is returned unchanged, or UnboundLocalError is raised if there is none |
| Find.RowSegments | materials/find.py:185-191 | only non-empty segments that hold a '/' give rows |
| Find.FrameRow | materials/find.py:211-212 | the intended frame keeps every record; as written a range value fails the length check |
| Find.HardnessScan | materials/find.py:185-212 | one row per row segment, in order, each with that segment's condition and, where its value text matches, that match; the value of a row without a match is stated by HardnessScanStale |
| Find.HardnessScanLast | materials/find.py:185-212 | after the loop `result` is bound iff some segment gave a row, and then holds the last row's value; as written it only ever holds a single number |
| Find.HardnessSegmentStep | materials/find.py:187-212 | a segment that is empty or has no '/' changes nothing; a row segment that gets through adds a row whose value becomes `result` |
| Find.HardnessSegmentStale | materials/find.py:193-208 | a row segment whose value text has no digit gets through only with `result` bound, and its row takes that value |
| Find.HardnessScanStale | materials/find.py:185-212 | a row whose value text has no digit is never the first and repeats the previous row's value |
| Find.HardnessSegmentSucceeds | materials/find.py:187-212 | a row segment gets through the loop body iff its second '/'-part has a '=', its value text holds a digit when `result` is unbound, and, as written, the value is not a range |
| Find.HardnessScanSucceeds | materials/find.py:185-212 | the loop raises nothing iff every row segment has a value text, the first one's holds a digit, and, as written, no value text matches a range |
| Find.Hardness | materials/find.py:166-213 | the query checks' exceptions, then the scan of the ';'-segments |
| Find.HardnessScanPrefixFails | materials/find.py:185-212 | an exception on the first segments is the exception of the whole text |
| Find.HardnessAsWrittenAgrees | materials/find.py:209-212 | whenever the code as written does not raise, it agrees with the intended decoding and its rows are scalars |
| Find.HardnessAsWrittenRejectsRanges | materials/find.py:209-212 | any range row the intended decoding accepts makes the code as written raise the length mismatch |
| Find.HardnessAsWrittenRejectsRangesPrefix | materials/find.py:209-212 | where the intended decoding succeeds, the code as written can only fail with the length mismatch |
| Find.SmallRangeValue | materials/find.py:199-204 | "1-2" gives [1, 2] |
| Find.SegmentMatched | materials/find.py:187-212 | a segment whose value text matches adds the row (condition, value) and sets `result` |
| Find.SmallRangeSegment | materials/find.py:187-212 | the segment "a/b=1-2" gives the range row when intended, and the length mismatch as written |
| Find.ScanOne | materials/find.py:185-212 | the loop over one segment is that segment's step from an unset `result` |
| Find.HardnessRangeRowExample | materials/find.py:209-212 | the text "a/b=1-2" decodes to one range row when intended and raises as written |
| Find.DecodeHardness | materials/find.py:166-213 | the loop returns Hardness with the intended frame |
| Find.DecodeHardnessSegment | materials/find.py:186-212 | the loop body returns the step of one segment |
| Find.WithoutBlanks | materials/find.py:259-261 | the evidently intended pass: no entry of the result is blank, and it is no longer than the input |
| Find.WithoutBlanksConcat | materials/find.py:259-261 | blank removal distributes over concatenation |
| Find.WithoutBlanksNone | materials/find.py:259-261 | a list without blanks is unchanged |
| Find.WithoutBlanksIdempotent | materials/find.py:259-261 | removing blanks twice removes nothing more |
| Find.RemoveFirst | materials/find.py:261 | `list.remove` shortens the list by one |
| Find.RemoveFirstMultiset | materials/find.py:261 | `list.remove` deletes exactly one occurrence |
| Find.RemoveFirstBlank | materials/find.py:261 | deleting a blank leaves the non-blank entries and their order |
| Find.BlankPassKeepsOthers | materials/find.py:259-261 | the pass as written deletes blanks only: the other entries survive in order, and nothing is added |
| Find.RemoveBlanksAsWritten | materials/find.py:259-261 | the loop that removes from the list it walks computes BlankPass |
| Find.BlankPassKeep | materials/find.py:259-260 | a non-blank entry is passed over |
| Find.BlankPassDelete | materials/find.py:260-261 | a blank entry is removed and the walk moves to the next position |
| Find.RemoveFirstOfFour | materials/find.py:261 | removing the first blank of [a, e1, e2, b] gives [a, e2, b] |
| Find.BlankPassKeepsSecondBlank | materials/find.py:259-261 | as written, the second of two adjacent blanks survives the pass |
| Find.WithoutBlanksClearsBoth | materials/find.py:259-261 | the intended pass removes both blanks |
| Find.TensileScanRows | materials/find.py:263-288 | when the loop gets through: one row per segment, in order, each with that segment's condition and matched value; a row whose value text has no digit is never the first and repeats the previous row's value; `result` is the last row's value |
| Find.TensileSegmentRow | materials/find.py:264-286 | a segment whose stripped text has no '/' raises; a row carries the segment's condition and matched value, a value text without a digit takes the previous `result`, and the value becomes `result` |
| Find.TensileScanLast | materials/find.py:263-288 | after the loop `result` is bound iff there was a segment |
| Find.TensileSegmentSucceeds | materials/find.py:264-286 | one segment gets through the loop body iff its stripped text holds a '/' and, with `result` unbound, its value text holds a digit |
| Find.TensileScanStep | materials/find.py:263-288 | one more segment: the loop gets through iff it got through the earlier ones and the new segment passes |
| Find.TensileScanSucceeds | materials/find.py:263-288 | the loop raises nothing iff every stripped segment holds a '/' and the first one's value text holds a digit |
| Find.RemainingRows | materials/find.py:259-261 | the segments the pass leaves, as written (BlankPass) or as intended (none blank); either way only blanks go and the others keep their order |
| Find.TensileStrength | materials/find.py:239-289 | the query checks' exceptions, then strip, split, the blank-removal pass of the chosen frame and the scan; one row per remaining segment |
| Find.TensileAdjacentBlanks | materials/find.py:259-267 | with two adjacent blanks between two segments, the code as written raises (IndexError once the first segment decodes), while the intended pass leaves the two segments |
| Find.BlankSecondSegmentFails | materials/find.py:263-266 | a blank segment reaching the loop after another raises: IndexError when the first one decodes |
| Find.TensileAdjacentBlanksExample | materials/find.py:259-267 | the stored text "x/500;;;y/600" raises as written, and the intended pass leaves ["x/500", "y/600"] |
| Find.TensileStrengthStripped | materials/find.py:256 | whitespace around the stored text makes no difference |
| Find.TensileScanPrefixFails | materials/find.py:263-288 | an exception on the first segments is the exception of the whole text |
| Find.RemoveBlanks | materials/find.py:259-261 | the corrected loop computes WithoutBlanks |
| Find.DecodeTensileStrength | materials/find.py:239-289 | the method returns TensileStrength of the chosen frame: the source's pass as written, or the corrected one |
| Find.ScanTensile | materials/find.py:263-288 | the loop returns TensileScan |
| Find.DecodeTensileSegment | materials/find.py:264-286 | the loop body returns the step of one segment |
| FieldsTypes.InverseDomain | materials/obj/fields_types.py:45 | the names of the inverted dict are exactly the table's names |
| FieldsTypes.InverseLast | materials/obj/fields_types.py:45 | a name of the inverted dict maps to the key of the last entry with that name |
| FieldsTypes.Validate | materials/obj/fields_types.py:37-66 | a value that is neither int nor str raises; a str succeeds iff it is a name, and gives the key of the last entry with it; an int succeeds iff it is a key, and is returned unchanged; each of the three subclasses is this on its own table |
| FieldsTypes.ValidateGivesKey | materials/obj/fields_types.py:37-50 | every result is a key, and a name's key maps back to that name |
| FieldsTypes.ValidateIdempotent | materials/obj/fields_types.py:46-50 | validating the result again returns it |
| FieldsTypes.NameGivesLastKey | materials/obj/fields_types.py:41-45 | a name validates to the key of the last entry carrying it |
| FieldsTypes.SharedNameGivesLastKey | materials/obj/fields_types.py:45 | a name shared by two keys never validates to the earlier key |
| FieldsTypes.NameKeyRoundTrip | materials/obj/fields_types.py:41-50 | with unique names, key -> name -> key is the identity |
| Interfaces.DictKey | materials/obj/interfaces.py:38 | only an int, or a float equal to an int, can be a dict key, and as that int |
| Interfaces.StoredName | materials/obj/interfaces.py:38 | a str is stored as is; any other value succeeds iff it is a key and then stores `table[key]`; an unhashable value (a list, or a tuple holding one) raises TypeError, any other non-key KeyError |
| Interfaces.SetterOutcome | materials/obj/interfaces.py:33-38 | a failed check raises; otherwise the result of StoredName |
| Interfaces.StoredNameValidates | materials/obj/interfaces.py:38 | a name the setter stores for a key validates back to an entry with that name |
| Interfaces.Hrc.Empty | materials/obj/interfaces.py:51 | the field starts as None |
| Interfaces.Hrc.SetHrc | materials/obj/interfaces.py:58-62 | succeeds iff the value is an int >= 0 and stores it; otherwise raises InvalidValue and the field is unchanged |
| Interfaces.Hrc.New | materials/obj/interfaces.py:50-52 | an object exists iff the setter accepts the value |
| Interfaces.Hrc.Parameters | materials/obj/interfaces.py:64-65 | exactly the key "hrc", mapped to the field |
| Interfaces.Workpiece.Empty | materials/obj/interfaces.py:26 | the field starts as None |
| Interfaces.Workpiece.SetWorkpiece | materials/obj/interfaces.py:33-38 | the field changes iff the check and the lookup pass, to SetterOutcome; on failure it is unchanged |
| Interfaces.Workpiece.New | materials/obj/interfaces.py:25-27 | an object exists iff the setter accepts the value |
| Interfaces.Workpiece.Parameters | materials/obj/interfaces.py:40-41 | exactly the key "workpiece", mapped to the field |
| Interfaces.HeatTreatment.Empty | materials/obj/interfaces.py:80 | the field starts as None |
| Interfaces.HeatTreatment.SetHeatTreatment | materials/obj/interfaces.py:87-93 | the field changes iff the check and the lookup pass, to SetterOutcome; on failure it is unchanged |
| Interfaces.HeatTreatment.New | materials/obj/interfaces.py:79-81 | an object exists iff the setter accepts the value |
| Interfaces.HeatTreatment.Parameters | materials/obj/interfaces.py:95-96 | exactly the key "heat_treatment", mapped to the field |
| MaterialState.Update | materials/obj/material.py:195-239 | None keeps the field; an int succeeds iff it is an index and is stored; a str succeeds iff it is a name and its index is stored; anything else raises |
| MaterialState.UpdateAgreesWithValidate | materials/obj/material.py:198-212 | with the index table the inverse of the names table, an update accepts what the field validator accepts and stores its key |
| MaterialState.UpdateIdempotent | materials/obj/material.py:201-209 | repeating an update with the stored index stores the same |
| MaterialState.StrBrandReplaces | materials/obj/material.py:125-131 | a str brand replaces iff it is not "", " " or "  " and differs from the current brand |
| MaterialState.NumberBrandReplaces | materials/obj/material.py:125-131 | a numeric brand replaces iff it is positive and not numerically equal to the current brand |
| MaterialState.KeptBrands | materials/obj/material.py:125-130 | None, and the current brand itself, never replace |
| MaterialState.Material.constructor | materials/obj/material.py:58-64 | the brand is set, and heat treatment and workpiece start unset |
| MaterialState.Material.UpdateHeatTreatment | materials/obj/material.py:195-215 | the field becomes Update's result on success and is unchanged on failure |
| MaterialState.Material.UpdateWorkpiece | materials/obj/material.py:218-239 | the field becomes Update's result on success and is unchanged on failure |
| MaterialState.Material.GetMaterialParameters | materials/obj/material.py:113-135 | the brand is replaced, and a reload reported, exactly when ReplacesBrand holds |

## Left out

- The database queries (`pd.read_sql`, `connect`, SQL text) are not modelled. The query result enters as its column: one entry per row, `None` for NULL.
- pandas DataFrames are not modelled. `get_table_*` return a map from row key to row dict, which is what `pd.DataFrame(dict).T` holds. The loops of find.py return the sequence of their rows. The labels `index_row` computes are discarded by `ignore_index=True` and are not kept.
- Python's `float(str)` is a parameter: a partial parser `string -> Option<real>`. Its grammar (signs, exponents, "inf", "nan", underscores) is not modelled. NaN comparisons in `min`/`max` are not modelled either.
- Python's `float` of at most four decimal digits is a whole number, so decoded values are `nat`s.
- Patterns.IsDigit: matches ASCII digits only. Python's `\d` also matches other Unicode decimal digits.
- `bool` as a subclass of `int` is not modelled. `True` and `False` are no separate values.
- `_check_in_dict` belongs to `CheckerInDictionary`, which is not part of this model. It is a parameter that either returns the value to store or raises.
- The tables CLASSES_MATERIALS, HEAT_TREATMENT, WORKPIECE, NAMES_HT, INDEXES_HT, NAMES_WP and INDEXES_WP live in materials/obj/constants, which is not part of this model. They are parameters.
- MaterialState.Material.GetMaterialParameters: the four reload calls (`get_material_characteristics`, `get_chemical_composition`, `get_hardness`, `get_tensile_strength`) read the database. They are not modelled; the method returns `reload` to say that they run.
- `mean_col`, `show`, `get_default_settings` and the `print` calls are left out. They are output, or they depend on DEFAULT_SETTINGS, which is not part of this model.
- MaterialState.Material.constructor: it does not model the `update_heat_treatment`, `update_workpiece` and `HRC` assignments of `__init__`. It starts the two fields as unset, while Python leaves `type_of_heat_treatment` undefined after a `None` argument.
- MaterialState.Update: the three rejections raise `InvalidValue`, which material.py never imports. The `NameError` that actually propagates is modelled as one failure per case.
- The condition at find.py:267 is always true for a str, so the branch is modelled as taken.
- The stale `result` of find.py, reused when a later value text matches no pattern, is modelled as written (Find.ValueOrStale, Find.HardnessScanStale, Find.TensileScanRows).
- `val[1]` in find.py is the text between the first and second '='. Later '='-parts are ignored.
- Find.DecodeHardness: the loop is proved for the intended frame only. The code as written is the function `Hardness(AsWritten, ...)`, and lemmas relate the two.
- The tensile loop's `data_to_row` dict is reused across rows. Each row sets both of its keys, so every row is fresh.

## Findings

| source | as written | input that shows it | evidently intended | confidence | as-written member | corrected member |
|---|---|---|---|---|---|---|
| materials/find.py:259-261 | `list_row.remove(row)` inside `for row in list_row` skips the entry after each removed one, so one of two adjacent blanks survives, and line 267's `data[1]` on it raises IndexError | stored text "x/500;;;y/600" (segments ["x/500", "", "", "y/600"]) | every blank segment removed before decoding | not executed | Find.TensileAdjacentBlanksExample | Find.WithoutBlanksClearsBoth |
| materials/find.py:209-212 | `pd.DataFrame(data, index=[index_row])` with the two-element list of a range row raises pandas' length-mismatch ValueError, so no hardness text with a range decodes | stored hardness text "a/b=1-2" | the range row kept with its two numbers | not executed | Find.HardnessRangeRowExample | Find.DecodeHardness |
