/**
 * The decoding loops of `hardness` and `tensile_strength` in
 * materials/find.py, from the moment the one-row query result is at hand:
 * the stored text is cut into ';'-segments, each segment into '/'-parts,
 * and the value part goes through the three patterns of `Patterns`.
 *
 * The query result is modelled by its column: one entry per row, `None`
 * for a NULL. The DataFrame the loops grow (`hardness_pro`,
 * `strength_pro`, built with `ignore_index=True`) is modelled as the
 * sequence of its rows, in order; the labels the loops compute for the
 * rows are dropped by `ignore_index` and are not modelled.
 */
module Find {
  import opened Wrappers
  import opened PyText
  import opened Patterns

  /** The exceptions the two functions raise (or let through). */
  datatype FindError =
    | ReceivedEmptyDataFrame     // no row, or a NULL text
    | UnexpectedDataInDataFrame  // more than one row
    | IndexError                 // a part the code indexes is missing
    | UnboundLocalError          // no pattern matched and `result` was never set
    | LengthMismatch             // pandas: a row dict holding a list for a one-row frame

  /** One row of the resulting DataFrame: `material_condition` and the decoded value. */
  datatype Record = Record(condition: string, value: Number)

  /**
   * The checks both functions make on the query result: exactly one row,
   * whose text is not NULL.
   */
  function StoredText(column: seq<Option<string>>): (r: Result<string, FindError>)
    ensures |column| == 0 ==> r == Failure(ReceivedEmptyDataFrame)
    ensures |column| > 1 ==> r == Failure(UnexpectedDataInDataFrame)
    ensures |column| == 1 && column[0].None? ==> r == Failure(ReceivedEmptyDataFrame)
    ensures r.Success? <==> |column| == 1 && column[0].Some?
    ensures r.Success? ==> column == [Some(r.value)]
  {
    if |column| != 1 then
      if |column| == 0 then Failure(ReceivedEmptyDataFrame) else Failure(UnexpectedDataInDataFrame)
    else if column[0].None? then Failure(ReceivedEmptyDataFrame)
    else Success(column[0].value)
  }

  /**
   * The value of a row: what the patterns find in `text`, or else the
   * `result` left over from an earlier row (`last`); with neither, the
   * variable is unbound.
   */
  function ValueOrStale(text: string, last: Option<Number>): (r: Result<Number, FindError>)
    ensures MatchValue(text).Some? ==> r == Success(MatchValue(text).value)
    ensures MatchValue(text).None? ==> (r.Success? <==> last.Some?)
    ensures MatchValue(text).None? && last.Some? ==> r == Success(last.value)
    ensures r.Failure? ==> r.error == UnboundLocalError
    ensures last.Some? && Bounded(last.value) && r.Success? ==> Bounded(r.value)
  {
    match MatchValue(text)
    case Some(v) => Success(v)
    case None => if last.Some? then Success(last.value) else Failure(UnboundLocalError)
  }

  /** The state the loops carry from one segment to the next: the rows so far and `result`. */
  datatype Scan = Scan(rows: seq<Record>, last: Option<Number>)

  // ---------------------------------------------------------------- hardness

  /** A segment that gives a hardness row: not empty and holding a '/'. */
  predicate IsRowSegment(seg: string) {
    seg != "" && '/' in seg
  }

  /** The segments that give rows, in order. */
  function RowSegments(segs: seq<string>): (r: seq<string>)
    ensures |r| <= |segs|
    ensures forall k :: 0 <= k < |r| ==> IsRowSegment(r[k])
    decreases |segs|
  {
    if segs == [] then []
    else
      var last := segs[|segs| - 1];
      RowSegments(segs[..|segs| - 1]) + if IsRowSegment(last) then [last] else []
  }

  /** The second '/'-part of the segment has a '=' to split on. */
  predicate HasValueText(seg: string) {
    |Split(seg, '/')| >= 2 && |Split(Split(seg, '/')[1], '=')| >= 2
  }

  /** `val[1]`: the text after the first '=' of the second '/'-part (up to a second '='). */
  function ValueText(seg: string): string
    requires HasValueText(seg)
  {
    Split(Split(seg, '/')[1], '=')[1]
  }

  /** How the frame row is built: as the code does it, or as evidently intended. */
  datatype Frame = AsWritten | Intended

  /**
   * `pd.DataFrame(data, index=[index_row])` for the row dict: a list value
   * (a range) has two elements for a one-row index and pandas raises.
   */
  function FrameRow(frame: Frame, rec: Record): (r: Result<Record, FindError>)
    ensures frame == Intended ==> r == Success(rec)
    ensures frame == AsWritten ==> (r.Success? <==> rec.value.Scalar?)
    ensures r.Success? ==> r.value == rec
    ensures r.Failure? ==> r.error == LengthMismatch
  {
    if frame == AsWritten && rec.value.Pair? then Failure(LengthMismatch) else Success(rec)
  }

  /** One ';'-segment of the hardness text: the row it adds, if any, and the new `result`. */
  function HardnessSegment(frame: Frame, seg: string, last: Option<Number>): (r: Result<(Option<Record>, Option<Number>), FindError>)
  {
    if seg == "" then Success((None, last))
    else
      var parts := Split(seg, '/');
      if |parts| == 1 then Success((None, last))
      else
        var val := Split(parts[1], '=');
        if |val| < 2 then Failure(IndexError)
        else
          match ValueOrStale(val[1], last)
          case Failure(e) => Failure(e)
          case Success(v) =>
            match FrameRow(frame, Record(parts[0], v))
            case Failure(e) => Failure(e)
            case Success(rec) => Success((Some(rec), Some(v)))
  }

  /** What the hardness row of a segment says about the segment. */
  predicate HardnessRowOf(seg: string, rec: Record) {
    && IsRowSegment(seg)
    && HasValueText(seg)
    && rec.condition == seg[..FirstIndex(seg, '/')]
    && Bounded(rec.value)
    && (MatchValue(ValueText(seg)).Some? ==> rec.value == MatchValue(ValueText(seg)).value)
  }

  /** A hardness row segment whose value text holds no digit: its row reuses `result`. */
  predicate HardnessStale(seg: string) {
    HasValueText(seg) && MatchValue(ValueText(seg)).None?
  }

  /** The hardness loop over the first segments: the rows and `result`, or the exception. */
  function HardnessScan(frame: Frame, segs: seq<string>): (r: Result<Scan, FindError>)
    ensures r.Success? ==> |r.value.rows| == |RowSegments(segs)|
    ensures r.Success? ==> forall k :: 0 <= k < |r.value.rows| ==> HardnessRowOf(RowSegments(segs)[k], r.value.rows[k])
    ensures r.Success? && r.value.last.Some? ==> Bounded(r.value.last.value)
    decreases |segs|
  {
    if segs == [] then Success(Scan([], None))
    else
      match HardnessScan(frame, segs[..|segs| - 1])
      case Failure(e) => Failure(e)
      case Success(st) =>
        var seg := segs[|segs| - 1];
        SplitSingleIff(seg, '/');
        SplitHead(seg, '/');
        match HardnessSegment(frame, seg, st.last)
        case Failure(e) => Failure(e)
        case Success(step) =>
          if step.0.None? then Success(Scan(st.rows, step.1))
          else Success(Scan(st.rows + [step.0.value], step.1))
  }

  /**
   * After the hardness loop, `result` is bound exactly when some segment gave
   * a row; as written it only ever holds a single number.
   */
  lemma {:induction false} HardnessScanLast(frame: Frame, segs: seq<string>)
    requires HardnessScan(frame, segs).Success?
    ensures HardnessScan(frame, segs).value.last.Some? <==> |RowSegments(segs)| > 0
    ensures |RowSegments(segs)| > 0 ==>
      HardnessScan(frame, segs).value.last == Some(HardnessScan(frame, segs).value.rows[|RowSegments(segs)| - 1].value)
    ensures frame == AsWritten && HardnessScan(frame, segs).value.last.Some? ==>
      HardnessScan(frame, segs).value.last.value.Scalar?
    decreases |segs|
  {
    if segs != [] {
      var init := segs[..|segs| - 1];
      var seg := segs[|segs| - 1];
      HardnessScanLast(frame, init);
      var st := HardnessScan(frame, init).value;
      HardnessSegmentStep(frame, seg, st.last);
      if IsRowSegment(seg) {
        assert RowSegments(segs) == RowSegments(init) + [seg];
      } else {
        assert RowSegments(segs) == RowSegments(init) + [];
      }
    }
  }

  /**
   * One segment in the hardness loop: a row segment that gets through adds
   * a row and leaves its value in `result`; any other segment changes nothing.
   */
  lemma HardnessSegmentStep(frame: Frame, seg: string, last: Option<Number>)
    ensures !IsRowSegment(seg) ==> HardnessSegment(frame, seg, last) == Success((None, last))
    ensures IsRowSegment(seg) && HardnessSegment(frame, seg, last).Success? ==>
      && HardnessSegment(frame, seg, last).value.0.Some?
      && HardnessSegment(frame, seg, last).value.1 == Some(HardnessSegment(frame, seg, last).value.0.value.value)
  {
    SplitSingleIff(seg, '/');
  }

  /** A row segment with no digit in its value text takes the value of `result`. */
  lemma HardnessSegmentStale(frame: Frame, seg: string, last: Option<Number>)
    requires IsRowSegment(seg) && HardnessStale(seg)
    requires HardnessSegment(frame, seg, last).Success?
    ensures last.Some?
    ensures HardnessSegment(frame, seg, last).value.0.Some?
    ensures HardnessSegment(frame, seg, last).value.0.value.value == last.value
  {
    SplitSingleIff(seg, '/');
  }

  /**
   * A row whose value text holds no digit is never the first, and it
   * repeats the value of the row before it: `result` still holds that value.
   */
  lemma {:induction false} HardnessScanStale(frame: Frame, segs: seq<string>)
    requires HardnessScan(frame, segs).Success?
    ensures forall k :: 0 <= k < |HardnessScan(frame, segs).value.rows| && HardnessStale(RowSegments(segs)[k]) ==>
      k > 0 && HardnessScan(frame, segs).value.rows[k].value == HardnessScan(frame, segs).value.rows[k - 1].value
    decreases |segs|
  {
    if segs != [] {
      var init := segs[..|segs| - 1];
      var seg := segs[|segs| - 1];
      HardnessScanStale(frame, init);
      HardnessScanLast(frame, init);
      SplitSingleIff(seg, '/');
      var st := HardnessScan(frame, init).value;
      var rows := HardnessScan(frame, segs).value.rows;
      if !IsRowSegment(seg) {
        assert RowSegments(segs) == RowSegments(init) + [];
        assert rows == st.rows;
      } else {
        assert RowSegments(segs) == RowSegments(init) + [seg];
        var n := |st.rows|;
        assert rows == st.rows + [HardnessSegment(frame, seg, st.last).value.0.value];
        if HardnessStale(seg) {
          HardnessSegmentStale(frame, seg, st.last);
        }
        forall k | 0 <= k < |rows| && HardnessStale(RowSegments(segs)[k])
          ensures k > 0 && rows[k].value == rows[k - 1].value
        {
          if k < n {
            assert RowSegments(segs)[k] == RowSegments(init)[k];
          }
        }
      }
    }
  }

  /**
   * When the loop body gets through the row segment `seg`: it has a value
   * text and, as written, that text does not match a range.
   */
  predicate SegmentDecodable(frame: Frame, seg: string) {
    && HasValueText(seg)
    && (frame == AsWritten && MatchValue(ValueText(seg)).Some? ==> MatchValue(ValueText(seg)).value.Scalar?)
  }

  /**
   * When the hardness loop gets through the row segments `rs`: each is
   * decodable, and the first one's value text holds a digit, since `result`
   * is not yet bound when it is read.
   */
  predicate HardnessDecodable(frame: Frame, rs: seq<string>) {
    && (forall k :: 0 <= k < |rs| ==> SegmentDecodable(frame, rs[k]))
    && (|rs| > 0 ==> HasValueText(rs[0]) && !NoDigit(ValueText(rs[0])))
  }

  /** Decodability of row segments, one more segment at a time. */
  lemma HardnessDecodableSnoc(frame: Frame, rs: seq<string>, x: string)
    ensures HardnessDecodable(frame, rs + [x]) <==>
      && HardnessDecodable(frame, rs)
      && SegmentDecodable(frame, x)
      && (rs == [] ==> !NoDigit(ValueText(x)))
  {
    var t := rs + [x];
    assert t[|rs|] == x;
    assert forall k :: 0 <= k < |rs| ==> t[k] == rs[k];
    if rs == [] {
      assert t == [x];
    }
  }

  /** The hardness loop succeeds exactly when its row segments are decodable. */
  lemma {:induction false} HardnessScanSucceeds(frame: Frame, segs: seq<string>)
    ensures HardnessScan(frame, segs).Success? <==> HardnessDecodable(frame, RowSegments(segs))
    decreases |segs|
  {
    if segs != [] {
      var init := segs[..|segs| - 1];
      var seg := segs[|segs| - 1];
      HardnessScanSucceeds(frame, init);
      SplitSingleIff(seg, '/');
      if !IsRowSegment(seg) {
        assert RowSegments(segs) == RowSegments(init) + [];
        assert RowSegments(segs) == RowSegments(init);
      } else {
        assert RowSegments(segs) == RowSegments(init) + [seg];
        HardnessDecodableSnoc(frame, RowSegments(init), seg);
        if HardnessScan(frame, init).Success? {
          HardnessScanLast(frame, init);
          HardnessSegmentSucceeds(frame, seg, HardnessScan(frame, init).value.last);
        }
      }
    }
  }

  /** One row segment gets through the loop body exactly when it is decodable after the ones before. */
  lemma HardnessSegmentSucceeds(frame: Frame, seg: string, last: Option<Number>)
    requires IsRowSegment(seg)
    requires frame == AsWritten && last.Some? ==> last.value.Scalar?
    ensures HardnessSegment(frame, seg, last).Success? <==>
      && SegmentDecodable(frame, seg)
      && (last.None? ==> !NoDigit(ValueText(seg)))
  {
    SplitSingleIff(seg, '/');
  }

  /** `hardness`: the rows decoded from the single stored text. */
  function Hardness(frame: Frame, column: seq<Option<string>>): (r: Result<seq<Record>, FindError>)
    ensures StoredText(column).Failure? ==> r == Failure(StoredText(column).error)
  {
    match StoredText(column)
    case Failure(e) => Failure(e)
    case Success(text) =>
      match HardnessScan(frame, Split(text, ';'))
      case Failure(e) => Failure(e)
      case Success(st) => Success(st.rows)
  }

  /** Once the loop has raised on the first segments, the whole text raises the same exception. */
  lemma {:induction false} HardnessScanPrefixFails(frame: Frame, segs: seq<string>, j: nat)
    requires j <= |segs|
    requires HardnessScan(frame, segs[..j]).Failure?
    ensures HardnessScan(frame, segs) == HardnessScan(frame, segs[..j])
    decreases |segs| - j
  {
    if j < |segs| {
      var longer := segs[..j + 1];
      assert longer[..|longer| - 1] == segs[..j];
      assert HardnessScan(frame, longer) == HardnessScan(frame, segs[..j]);
      HardnessScanPrefixFails(frame, segs, j + 1);
    } else {
      assert segs[..j] == segs;
    }
  }

  /** The code as written agrees with the intended decoding whenever it does not raise. */
  lemma {:induction false} HardnessAsWrittenAgrees(segs: seq<string>)
    requires HardnessScan(AsWritten, segs).Success?
    ensures HardnessScan(Intended, segs) == HardnessScan(AsWritten, segs)
    ensures forall k :: 0 <= k < |HardnessScan(AsWritten, segs).value.rows| ==>
      HardnessScan(AsWritten, segs).value.rows[k].value.Scalar?
    decreases |segs|
  {
    if segs != [] {
      HardnessAsWrittenAgrees(segs[..|segs| - 1]);
    }
  }

  /**
   * A hardness text with a range row ("a - b" or "a-b") that the intended
   * decoding accepts makes the code as written raise: every range row is
   * lost to the frame's length check.
   */
  lemma {:induction false} HardnessAsWrittenRejectsRanges(segs: seq<string>, k: nat)
    requires HardnessScan(Intended, segs).Success?
    requires k < |HardnessScan(Intended, segs).value.rows|
    requires HardnessScan(Intended, segs).value.rows[k].value.Pair?
    ensures HardnessScan(AsWritten, segs) == Failure(LengthMismatch)
    decreases |segs|
  {
    var n := |segs| - 1;
    var init := segs[..n];
    var st := HardnessScan(Intended, init).value;
    if k < |st.rows| {
      HardnessAsWrittenRejectsRanges(init, k);
    } else if HardnessScan(AsWritten, init).Success? {
      HardnessAsWrittenAgrees(init);
    } else {
      HardnessAsWrittenRejectsRangesPrefix(init);
    }
  }

  /** A prefix that the intended decoding accepts can only fail as written with the length check. */
  lemma {:induction false} HardnessAsWrittenRejectsRangesPrefix(segs: seq<string>)
    requires HardnessScan(Intended, segs).Success?
    requires HardnessScan(AsWritten, segs).Failure?
    ensures HardnessScan(AsWritten, segs) == Failure(LengthMismatch)
    decreases |segs|
  {
    var init := segs[..|segs| - 1];
    if HardnessScan(AsWritten, init).Failure? {
      HardnessAsWrittenRejectsRangesPrefix(init);
    } else {
      HardnessAsWrittenAgrees(init);
    }
  }

  /** The value text of the smallest range row: "1-2" gives [1, 2]. */
  lemma SmallRangeValue()
    ensures MatchValue("1-2") == Some(Pair(1, 2))
  {
    var v := "1-2";
    NoRangeWithout(v, " - ", 0);
    assert DigitRun(v, 1) == 0 && DigitRun(v, 0) == 1;
    assert v[1..2] == "-";
    assert RangeAt(v, 0, "-");
    assert SearchRange(v, "-", 0) == Some(0);
    assert DigitRun(v, 3) == 0 && DigitRun(v, 2) == 1;
    assert v[0..1] == "1" && v[2..3] == "2";
    assert DigitsValue("1") == 1 && DigitsValue("2") == 2;
  }

  /** The '/'-parts of the smallest range row. */
  lemma SmallRangeParts()
    ensures Split("a/b=1-2", '/') == ["a", "b=1-2"]
  {
    assert Join(["a", "b=1-2"], '/') == "a/b=1-2";
    SplitJoin(["a", "b=1-2"], '/');
  }

  /** A segment whose value text matches a pattern: the row it adds and the new `result`. */
  lemma SegmentMatched(frame: Frame, seg: string, last: Option<Number>, v: Number)
    requires seg != "" && HasValueText(seg)
    requires MatchValue(ValueText(seg)) == Some(v)
    ensures HardnessSegment(frame, seg, last) ==
      match FrameRow(frame, Record(Split(seg, '/')[0], v))
      case Failure(e) => Failure(e)
      case Success(rec) => Success((Some(rec), Some(v)))
  {
  }

  /** The segment of the smallest range row, on its own. */
  lemma SmallRangeSegment()
    ensures HardnessSegment(Intended, "a/b=1-2", None) == Success((Some(Record("a", Pair(1, 2))), Some(Pair(1, 2))))
    ensures HardnessSegment(AsWritten, "a/b=1-2", None) == Failure(LengthMismatch)
  {
    SmallRangeValueText();
    SmallRangeValue();
    SegmentMatched(Intended, "a/b=1-2", None, Pair(1, 2));
    SegmentMatched(AsWritten, "a/b=1-2", None, Pair(1, 2));
  }

  /** The condition and the value text of the smallest range row. */
  lemma SmallRangeValueText()
    ensures HasValueText("a/b=1-2")
    ensures Split("a/b=1-2", '/')[0] == "a" && ValueText("a/b=1-2") == "1-2"
  {
    SmallRangeParts();
    assert Join(["b", "1-2"], '=') == "b=1-2";
    SplitJoin(["b", "1-2"], '=');
  }

  /** The smallest such text: one range row. */
  lemma HardnessRangeRowExample()
    ensures HardnessScan(Intended, ["a/b=1-2"]) == Success(Scan([Record("a", Pair(1, 2))], Some(Pair(1, 2))))
    ensures HardnessScan(AsWritten, ["a/b=1-2"]) == Failure(LengthMismatch)
  {
    SmallRangeSegment();
    ScanOne(Intended, "a/b=1-2");
    ScanOne(AsWritten, "a/b=1-2");
  }

  /** The loop over a single segment is that segment's step from an unset `result`. */
  lemma ScanOne(frame: Frame, seg: string)
    ensures HardnessScan(frame, [seg]) ==
      match HardnessSegment(frame, seg, None)
      case Failure(e) => Failure(e)
      case Success(step) => Success(Scan(if step.0.None? then [] else [step.0.value], step.1))
  {
    assert [seg][..0] == [];
    assert HardnessScan(frame, []) == Success(Scan([], None));
    var st := HardnessSegment(frame, seg, None);
    if st.Success? && st.value.0.Some? {
      assert [] + [st.value.0.value] == [st.value.0.value];
    }
  }

  /**
   * `hardness` from line 181 on: the segments in order, with `result`
   * carried from one segment to the next as the Python variable is.
   */
  method DecodeHardness(column: seq<Option<string>>) returns (r: Result<seq<Record>, FindError>)
    ensures r == Hardness(Intended, column)
  {
    if |column| != 1 {
      if |column| == 0 {
        return Failure(ReceivedEmptyDataFrame);
      }
      return Failure(UnexpectedDataInDataFrame);
    }
    if column[0].None? {
      return Failure(ReceivedEmptyDataFrame);
    }
    var value := Split(column[0].value, ';');
    var rows: seq<Record> := [];
    var result: Option<Number> := None;
    for i := 0 to |value|
      invariant HardnessScan(Intended, value[..i]) == Success(Scan(rows, result))
    {
      assert value[..i + 1][..i] == value[..i];
      var step := DecodeHardnessSegment(value[i], result);
      if step.Failure? {
        HardnessScanPrefixFails(Intended, value, i + 1);
        return Failure(step.error);
      }
      if step.value.0.Some? {
        rows := rows + [step.value.0.value];
      }
      result := step.value.1;
    }
    assert value[..|value|] == value;
    return Success(rows);
  }

  /** The body of the hardness loop for one segment `item`, given the current `result`. */
  method DecodeHardnessSegment(item: string, result: Option<Number>) returns (r: Result<(Option<Record>, Option<Number>), FindError>)
    ensures r == HardnessSegment(Intended, item, result)
  {
    if item != "" {
      var parts := Split(item, '/');
      if |parts| > 1 {
        var val := Split(parts[1], '=');
        if |val| < 2 {
          return Failure(IndexError);
        }
        var found := MatchValue(val[1]);
        var value := result;
        if found.Some? {
          value := found;
        } else if value.None? {
          return Failure(UnboundLocalError);
        }
        return Success((Some(Record(parts[0], value.value)), value));
      }
    }
    return Success((None, result));
  }

  // -------------------------------------------------------- tensile strength

  /** An entry the blank-removal pass is meant to delete. */
  predicate IsBlank(row: string) {
    row == "" || row == " " || row == "  "
  }

  /** The segments without the blank entries, in order: what the pass evidently intends. */
  function WithoutBlanks(rows: seq<string>): (r: seq<string>)
    ensures |r| <= |rows|
    ensures forall k :: 0 <= k < |r| ==> !IsBlank(r[k])
    decreases |rows|
  {
    if rows == [] then []
    else
      var n := |rows| - 1;
      assert rows == rows[..n] + [rows[n]];
      WithoutBlanks(rows[..n]) + if IsBlank(rows[n]) then [] else [rows[n]]
  }

  lemma {:induction false} WithoutBlanksConcat(a: seq<string>, b: seq<string>)
    ensures WithoutBlanks(a + b) == WithoutBlanks(a) + WithoutBlanks(b)
    decreases |b|
  {
    if b == [] {
      assert a + b == a;
    } else {
      var n := |b| - 1;
      assert (a + b)[..|a + b| - 1] == a + b[..n];
      WithoutBlanksConcat(a, b[..n]);
    }
  }

  /** A list without blanks is left as it is. */
  lemma {:induction false} WithoutBlanksNone(rows: seq<string>)
    requires forall k :: 0 <= k < |rows| ==> !IsBlank(rows[k])
    ensures WithoutBlanks(rows) == rows
    decreases |rows|
  {
    if rows != [] {
      WithoutBlanksNone(rows[..|rows| - 1]);
    }
  }

  /** Removing the blanks twice removes nothing more. */
  lemma WithoutBlanksIdempotent(rows: seq<string>)
    ensures WithoutBlanks(WithoutBlanks(rows)) == WithoutBlanks(rows)
  {
    WithoutBlanksNone(WithoutBlanks(rows));
  }

  /** `list.remove(x)`: deletes the first entry equal to `x`. */
  function RemoveFirst(rows: seq<string>, x: string): (r: seq<string>)
    requires x in rows
    ensures |r| == |rows| - 1
  {
    var k := IndexOf(rows, x);
    rows[..k] + rows[k + 1..]
  }

  /** `list.remove` deletes exactly one occurrence of the entry. */
  lemma RemoveFirstMultiset(rows: seq<string>, x: string)
    requires x in rows
    ensures multiset(RemoveFirst(rows, x)) + multiset{x} == multiset(rows)
  {
    var k := IndexOf(rows, x);
    assert rows == rows[..k] + [x] + rows[k + 1..];
  }

  /**
   * The pass `for row in list_row: if row in [...]: list_row.remove(row)`
   * as Python runs it: the loop reads position `i` of the list as it is at
   * that moment, and a removal shifts the later entries down, so the entry
   * after a removed one is never looked at.
   */
  function BlankPass(rows: seq<string>, i: nat): seq<string>
    decreases |rows| - i
  {
    if i >= |rows| then rows
    else if IsBlank(rows[i]) then BlankPass(RemoveFirst(rows, rows[i]), i + 1)
    else BlankPass(rows, i + 1)
  }

  /** Deleting one blank entry changes neither the other entries nor their order. */
  lemma RemoveFirstBlank(rows: seq<string>, x: string)
    requires x in rows && IsBlank(x)
    ensures WithoutBlanks(RemoveFirst(rows, x)) == WithoutBlanks(rows)
  {
    var k := IndexOf(rows, x);
    var front := rows[..k];
    var back := rows[k + 1..];
    assert rows == front + ([x] + back);
    WithoutBlanksDropsBlank(front, x, back);
  }

  lemma WithoutBlanksDropsBlank(front: seq<string>, x: string, back: seq<string>)
    requires IsBlank(x)
    ensures WithoutBlanks(front + ([x] + back)) == WithoutBlanks(front + back)
  {
    WithoutBlanksConcat(front, [x] + back);
    WithoutBlanksConcat([x], back);
    WithoutBlanksConcat(front, back);
    assert WithoutBlanks([x]) == [] by { assert [x][..0] == []; }
    assert [] + WithoutBlanks(back) == WithoutBlanks(back);
  }

  /** The pass deletes blanks only: the other entries survive, in their order. */
  lemma {:induction false} BlankPassKeepsOthers(rows: seq<string>, i: nat)
    ensures WithoutBlanks(BlankPass(rows, i)) == WithoutBlanks(rows)
    ensures multiset(BlankPass(rows, i)) <= multiset(rows)
    decreases |rows| - i
  {
    if i < |rows| {
      if IsBlank(rows[i]) {
        RemoveFirstBlank(rows, rows[i]);
        RemoveFirstMultiset(rows, rows[i]);
        BlankPassKeepsOthers(RemoveFirst(rows, rows[i]), i + 1);
      } else {
        BlankPassKeepsOthers(rows, i + 1);
      }
    }
  }

  /** The pass as the loop runs it, removing from the list it walks. */
  method RemoveBlanksAsWritten(rows: seq<string>) returns (listRow: seq<string>)
    ensures listRow == BlankPass(rows, 0)
  {
    listRow := rows;
    var i := 0;
    while i < |listRow|
      invariant BlankPass(listRow, i) == BlankPass(rows, 0)
      decreases |listRow| - i
    {
      if IsBlank(listRow[i]) {
        listRow := RemoveFirst(listRow, listRow[i]);
      }
      i := i + 1;
    }
  }

  /** A step of the pass over an entry it keeps. */
  lemma BlankPassKeep(rows: seq<string>, i: nat)
    requires i < |rows| && !IsBlank(rows[i])
    ensures BlankPass(rows, i) == BlankPass(rows, i + 1)
  {
  }

  /** A step of the pass over an entry it deletes. */
  lemma BlankPassDelete(rows: seq<string>, i: nat)
    requires i < |rows| && IsBlank(rows[i])
    ensures BlankPass(rows, i) == BlankPass(RemoveFirst(rows, rows[i]), i + 1)
  {
  }

  /** Deleting the first blank of `[a, e1, e2, b]`. */
  lemma RemoveFirstOfFour(a: string, e1: string, e2: string, b: string)
    requires !IsBlank(a) && IsBlank(e1)
    ensures RemoveFirst([a, e1, e2, b], e1) == [a, e2, b]
  {
    var rows := [a, e1, e2, b];
    var k := IndexOf(rows, e1);
    assert rows[0] != e1 && rows[1] == e1;
    assert k == 1;
    assert rows[..1] + rows[2..] == [a, e2, b];
  }

  /** Two blanks in a row between other entries: the second one survives the pass. */
  lemma BlankPassKeepsSecondBlank(a: string, e1: string, e2: string, b: string)
    requires !IsBlank(a) && IsBlank(e1) && IsBlank(e2) && !IsBlank(b)
    ensures BlankPass([a, e1, e2, b], 0) == [a, e2, b]
  {
    var rows := [a, e1, e2, b];
    var rest := [a, e2, b];
    BlankPassKeep(rows, 0);
    BlankPassDelete(rows, 1);
    RemoveFirstOfFour(a, e1, e2, b);
    BlankPassKeep(rest, 2);
    assert BlankPass(rest, 3) == rest;
  }

  /** The intended pass clears both blanks of the same list. */
  lemma WithoutBlanksClearsBoth(a: string, e1: string, e2: string, b: string)
    requires !IsBlank(a) && IsBlank(e1) && IsBlank(e2) && !IsBlank(b)
    ensures WithoutBlanks([a, e1, e2, b]) == [a, b]
  {
    var rows := [a, e1, e2, b];
    assert rows[..3] == [a, e1, e2];
    assert WithoutBlanks(rows) == WithoutBlanks([a, e1, e2]) + [b];
    assert [a, e1, e2][..2] == [a, e1];
    assert WithoutBlanks([a, e1, e2]) == WithoutBlanks([a, e1]);
    assert [a, e1][..1] == [a];
    assert WithoutBlanks([a, e1]) == WithoutBlanks([a]);
    assert [a][..0] == [];
    assert WithoutBlanks([a]) == [a];
  }

  /** One remaining segment of the tensile text, stripped and split on '/'. */
  function TensileSegment(seg: string, last: Option<Number>): (r: Result<(Record, Number), FindError>)
  {
    var data := Split(Strip(seg), '/');
    if |data| < 2 then Failure(IndexError)
    else
      match ValueOrStale(data[1], last)
      case Failure(e) => Failure(e)
      case Success(v) => Success((Record(data[0], v), v))
  }

  /** What the tensile row of a segment says about the segment. */
  predicate TensileRowOf(seg: string, rec: Record) {
    && '/' in Strip(seg)
    && |Split(Strip(seg), '/')| >= 2
    && rec.condition == Strip(seg)[..FirstIndex(Strip(seg), '/')]
    && Bounded(rec.value)
    && (MatchValue(Split(Strip(seg), '/')[1]).Some? ==> rec.value == MatchValue(Split(Strip(seg), '/')[1]).value)
  }

  /** A tensile segment whose value text holds no digit: its row reuses `result`. */
  predicate TensileStale(seg: string) {
    |Split(Strip(seg), '/')| >= 2 && MatchValue(Split(Strip(seg), '/')[1]).None?
  }

  /** The tensile loop over the first segments: the rows and `result`, or the exception. */
  function TensileScan(segs: seq<string>): Result<Scan, FindError>
    decreases |segs|
  {
    if segs == [] then Success(Scan([], None))
    else
      match TensileScan(segs[..|segs| - 1])
      case Failure(e) => Failure(e)
      case Success(st) =>
        match TensileSegment(segs[|segs| - 1], st.last)
        case Failure(e) => Failure(e)
        case Success(step) => Success(Scan(st.rows + [step.0], Some(step.1)))
  }

  /**
   * When the tensile loop gets through: one row per segment, in order, each
   * with that segment's condition and value, and `result` is the last row's value.
   */
  lemma {:induction false} TensileScanRows(segs: seq<string>)
    requires TensileScan(segs).Success?
    ensures |TensileScan(segs).value.rows| == |segs|
    ensures forall k :: 0 <= k < |segs| ==> TensileRowOf(segs[k], TensileScan(segs).value.rows[k])
    ensures TensileScan(segs).value.last.Some? <==> |segs| > 0
    ensures |segs| > 0 ==> TensileScan(segs).value.last == Some(TensileScan(segs).value.rows[|segs| - 1].value)
    ensures forall k :: 0 <= k < |segs| && TensileStale(segs[k]) ==>
      k > 0 && TensileScan(segs).value.rows[k].value == TensileScan(segs).value.rows[k - 1].value
    decreases |segs|
  {
    if segs != [] {
      var init := segs[..|segs| - 1];
      var seg := segs[|segs| - 1];
      TensileScanRows(init);
      var st := TensileScan(init).value;
      assert st.last.Some? ==> Bounded(st.last.value) by {
        if init != [] {
          assert TensileRowOf(init[|init| - 1], st.rows[|init| - 1]);
        }
      }
      TensileSegmentRow(seg, st.last);
      var rows := TensileScan(segs).value.rows;
      assert rows == st.rows + [TensileSegment(seg, st.last).value.0];
      forall k | 0 <= k < |segs|
        ensures TensileRowOf(segs[k], rows[k])
        ensures TensileStale(segs[k]) ==> k > 0 && rows[k].value == rows[k - 1].value
      {
        if k < |init| {
          assert segs[k] == init[k] && rows[k] == st.rows[k];
          if k > 0 {
            assert rows[k - 1] == st.rows[k - 1];
          }
        }
      }
    }
  }

  /** The row one segment gives the tensile loop, and the segments it raises on. */
  lemma TensileSegmentRow(seg: string, last: Option<Number>)
    requires last.Some? ==> Bounded(last.value)
    ensures '/' !in Strip(seg) ==> TensileSegment(seg, last).Failure?
    ensures TensileSegment(seg, last).Success? ==>
      && TensileRowOf(seg, TensileSegment(seg, last).value.0)
      && TensileSegment(seg, last).value.1 == TensileSegment(seg, last).value.0.value
    ensures TensileSegment(seg, last).Success? && TensileStale(seg) ==>
      last.Some? && TensileSegment(seg, last).value.1 == last.value
  {
    SplitSingleIff(Strip(seg), '/');
    SplitHead(Strip(seg), '/');
  }

  /**
   * When the tensile loop gets through: every segment holds a '/', and the
   * first one's value text holds a digit, since `result` is not yet bound
   * when the first segment is read.
   */
  predicate TensileDecodable(segs: seq<string>) {
    && (forall k :: 0 <= k < |segs| ==> '/' in Strip(segs[k]))
    && (|segs| > 0 ==> |Split(Strip(segs[0]), '/')| >= 2 && !NoDigit(Split(Strip(segs[0]), '/')[1]))
  }

  /** After the tensile loop, `result` is bound exactly when there was a segment. */
  lemma TensileScanLast(segs: seq<string>)
    ensures TensileScan(segs).Success? ==> (TensileScan(segs).value.last.Some? <==> |segs| > 0)
  {
  }

  /** The tensile loop succeeds exactly on decodable segments. */
  lemma {:induction false} TensileScanSucceeds(segs: seq<string>)
    ensures TensileScan(segs).Success? <==> TensileDecodable(segs)
    decreases |segs|
  {
    if segs != [] {
      var init := segs[..|segs| - 1];
      var seg := segs[|segs| - 1];
      assert segs == init + [seg];
      TensileScanSucceeds(init);
      TensileScanLast(init);
      TensileScanStep(init, seg);
    }
  }

  /** One more segment: decodable exactly when the first ones are and the new one gets through. */
  lemma TensileScanStep(init: seq<string>, seg: string)
    requires TensileScan(init).Success? ==> (TensileScan(init).value.last.Some? <==> init != [])
    requires TensileScan(init).Success? <==> TensileDecodable(init)
    ensures TensileScan(init + [seg]).Success? <==> TensileDecodable(init + [seg])
  {
    var segs := init + [seg];
    assert segs[..|segs| - 1] == init && segs[|segs| - 1] == seg;
    TensileDecodableSnoc(init, seg);
    if TensileScan(init).Success? {
      TensileSegmentSucceeds(seg, TensileScan(init).value.last);
    }
  }

  /** Decodability of segments, one more segment at a time. */
  lemma TensileDecodableSnoc(segs: seq<string>, x: string)
    ensures TensileDecodable(segs + [x]) <==>
      && TensileDecodable(segs)
      && '/' in Strip(x)
      && (segs == [] ==> |Split(Strip(x), '/')| >= 2 && !NoDigit(Split(Strip(x), '/')[1]))
  {
    var t := segs + [x];
    assert t[|segs|] == x;
    assert forall k :: 0 <= k < |segs| ==> t[k] == segs[k];
    if segs == [] {
      assert t == [x];
    }
  }

  /** One segment gets through the loop body exactly when it holds a '/' and, with `result` unbound, a digit after it. */
  lemma TensileSegmentSucceeds(seg: string, last: Option<Number>)
    ensures TensileSegment(seg, last).Success? <==>
      && '/' in Strip(seg)
      && (last.None? ==> |Split(Strip(seg), '/')| >= 2 && !NoDigit(Split(Strip(seg), '/')[1]))
  {
    SplitSingleIff(Strip(seg), '/');
  }

  /**
   * The segments the blank-removal pass at lines 259-261 leaves: as the loop
   * runs it, or with every blank gone as evidently intended. Either way only
   * blanks go, and the other segments keep their order.
   */
  function RemainingRows(frame: Frame, rows: seq<string>): (r: seq<string>)
    ensures WithoutBlanks(r) == WithoutBlanks(rows)
    ensures frame == Intended ==> forall k :: 0 <= k < |r| ==> !IsBlank(r[k])
  {
    if frame == AsWritten then
      BlankPassKeepsOthers(rows, 0);
      BlankPass(rows, 0)
    else
      WithoutBlanksIdempotent(rows);
      WithoutBlanks(rows)
  }

  /** `tensile_strength`: the stored text stripped, split on ';', cleared of blanks, decoded. */
  function TensileStrength(frame: Frame, column: seq<Option<string>>): (r: Result<seq<Record>, FindError>)
    ensures StoredText(column).Failure? ==> r == Failure(StoredText(column).error)
    ensures r.Success? ==> |r.value| == |RemainingRows(frame, Split(Strip(StoredText(column).value), ';'))|
  {
    match StoredText(column)
    case Failure(e) => Failure(e)
    case Success(text) =>
      var segs := RemainingRows(frame, Split(Strip(text), ';'));
      match TensileScan(segs)
      case Failure(e) => Failure(e)
      case Success(st) =>
        TensileScanRows(segs);
        Success(st.rows)
  }

  /** Whitespace around the stored text makes no difference. */
  lemma TensileStrengthStripped(frame: Frame, text: string)
    ensures TensileStrength(frame, [Some(text)]) == TensileStrength(frame, [Some(Strip(text))])
  {
    StripIdempotent(text);
  }

  /** A blank strips to nothing. */
  lemma StripBlank(e: string)
    requires IsBlank(e)
    ensures Strip(e) == ""
  {
    assert " "[1..] == "";
    assert "  "[1..] == " ";
  }

  /**
   * Two adjacent blank segments between two others: as written, the second
   * blank reaches the loop, and `data[1]` on it raises IndexError once the
   * first segment has decoded; the intended pass leaves the two others.
   */
  lemma TensileAdjacentBlanks(text: string, a: string, e1: string, e2: string, b: string)
    requires Split(Strip(text), ';') == [a, e1, e2, b]
    requires !IsBlank(a) && IsBlank(e1) && IsBlank(e2) && !IsBlank(b)
    ensures TensileStrength(AsWritten, [Some(text)]).Failure?
    ensures TensileSegment(a, None).Success? ==> TensileStrength(AsWritten, [Some(text)]) == Failure(IndexError)
    ensures RemainingRows(Intended, [a, e1, e2, b]) == [a, b]
    ensures TensileStrength(Intended, [Some(text)]).Success? <==> TensileScan([a, b]).Success?
  {
    var rows := [a, e1, e2, b];
    BlankPassKeepsSecondBlank(a, e1, e2, b);
    WithoutBlanksClearsBoth(a, e1, e2, b);
    var kept := [a, e2, b];
    assert RemainingRows(AsWritten, rows) == kept;
    BlankSecondSegmentFails(a, e2, b);
  }

  /** The tensile loop over a segment, a blank and another: the blank has no '/' to split on. */
  lemma BlankSecondSegmentFails(a: string, e: string, b: string)
    requires IsBlank(e)
    ensures TensileScan([a, e, b]).Failure?
    ensures TensileSegment(a, None).Success? ==> TensileScan([a, e, b]) == Failure(IndexError)
  {
    var kept := [a, e, b];
    StripBlank(e);
    assert '/' !in Strip(kept[1]);
    TensileScanSucceeds(kept);
    if TensileSegment(a, None).Success? {
      assert [a][..0] == [];
      assert TensileScan([a]).Success?;
      assert kept[..2][..1] == [a];
      SplitNoSeparator("", '/');
      assert TensileScan(kept[..2]) == Failure(IndexError);
      TensileScanPrefixFails(kept, 2);
    }
  }

  /** The segments of "x/500;;;y/600". */
  lemma AdjacentBlanksSegments(text: string)
    requires text == "x/500;;;y/600"
    ensures Strip(text) == text
    ensures Split(text, ';') == ["x/500", "", "", "y/600"]
  {
    var parts := ["x/500", "", "", "y/600"];
    assert Join(parts, ';') == text;
    SplitJoin(parts, ';');
    assert Stripped(text);
    StripStripped(text);
  }

  /** The input of the finding: "x/500;;;y/600" makes the code as written raise. */
  lemma TensileAdjacentBlanksExample(text: string)
    requires text == "x/500;;;y/600"
    ensures TensileStrength(AsWritten, [Some(text)]).Failure?
    ensures RemainingRows(Intended, Split(text, ';')) == ["x/500", "y/600"]
  {
    AdjacentBlanksSegments(text);
    var parts := Split(Strip(text), ';');
    assert !IsBlank(parts[0]) && IsBlank(parts[1]) && IsBlank(parts[2]) && !IsBlank(parts[3]);
    TensileAdjacentBlanks(text, parts[0], parts[1], parts[2], parts[3]);
  }


  /** Once the loop has raised on the first segments, the whole text raises the same exception. */
  lemma {:induction false} TensileScanPrefixFails(segs: seq<string>, j: nat)
    requires j <= |segs|
    requires TensileScan(segs[..j]).Failure?
    ensures TensileScan(segs) == TensileScan(segs[..j])
    decreases |segs| - j
  {
    if j < |segs| {
      assert segs[..j + 1][..j] == segs[..j];
      TensileScanPrefixFails(segs, j + 1);
    } else {
      assert segs[..j] == segs;
    }
  }

  /** The blank-removal pass with the evidently intended effect: every blank entry goes. */
  method RemoveBlanks(rows: seq<string>) returns (listRow: seq<string>)
    ensures listRow == WithoutBlanks(rows)
  {
    listRow := [];
    for i := 0 to |rows|
      invariant listRow == WithoutBlanks(rows[..i])
    {
      assert rows[..i + 1][..i] == rows[..i];
      if !IsBlank(rows[i]) {
        listRow := listRow + [rows[i]];
      }
    }
    assert rows[..|rows|] == rows;
  }

  /**
   * `tensile_strength` from line 239 on, with the blank-removal pass as the
   * code runs it (`AsWritten`) or as evidently intended (`Intended`).
   */
  method DecodeTensileStrength(frame: Frame, column: seq<Option<string>>) returns (r: Result<seq<Record>, FindError>)
    ensures r == TensileStrength(frame, column)
  {
    if |column| != 1 {
      if |column| == 0 {
        return Failure(ReceivedEmptyDataFrame);
      }
      return Failure(UnexpectedDataInDataFrame);
    }
    if column[0].None? {
      return Failure(ReceivedEmptyDataFrame);
    }
    var text := Strip(column[0].value);
    var listRow;
    if frame == AsWritten {
      listRow := RemoveBlanksAsWritten(Split(text, ';'));
    } else {
      listRow := RemoveBlanks(Split(text, ';'));
    }
    var scan := ScanTensile(listRow);
    if scan.Failure? {
      return Failure(scan.error);
    }
    return Success(scan.value.rows);
  }

  /** The loop at lines 263-288 over the segments left by the blank-removal pass. */
  method ScanTensile(listRow: seq<string>) returns (r: Result<Scan, FindError>)
    ensures r == TensileScan(listRow)
  {
    var rows: seq<Record> := [];
    var result: Option<Number> := None;
    for i := 0 to |listRow|
      invariant TensileScan(listRow[..i]) == Success(Scan(rows, result))
    {
      assert listRow[..i + 1][..i] == listRow[..i];
      var step := DecodeTensileSegment(listRow[i], result);
      if step.Failure? {
        TensileScanPrefixFails(listRow, i + 1);
        return Failure(step.error);
      }
      rows := rows + [step.value.0];
      result := Some(step.value.1);
    }
    assert listRow[..|listRow|] == listRow;
    return Success(Scan(rows, result));
  }

  /** One pass of the loop at lines 263-288: the row of a segment and the new `result`. */
  method DecodeTensileSegment(item: string, result: Option<Number>) returns (r: Result<(Record, Number), FindError>)
    ensures r == TensileSegment(item, result)
  {
    var row := Strip(item);
    var data := Split(row, '/');
    if |data| < 2 {
      return Failure(IndexError);
    }
    var found := MatchValue(data[1]);
    var value := result;
    if found.Some? {
      value := found;
    } else if value.None? {
      return Failure(UnboundLocalError);
    }
    return Success((Record(data[0], value.value), value.value));
  }
}
