/**
 * `get_range`, `get_range_for_list` and `get_range_for_str` of
 * materials/scr/gen_fun.py: they turn "2.3-2.9", "2, 5.6", "7" or a
 * two-element list into the pair (min, max).
 */
module Ranges {
  import opened Wrappers
  import opened PyValue
  import opened PyText

  /** The `(min, max)` tuple the functions return. */
  datatype Range = Range(lo: real, hi: real)

  /** The distinct `InvalidValue` messages of the three functions. */
  datatype RangeError =
    | NotARange        // neither a str, nor a tuple, nor a list
    | NeedsTwoNumbers  // not exactly two values
    | NeedsNumbers     // a value that is not a number
    | MixedSeparators  // the text holds both '-' and ','
    | NoSeparator      // the text holds neither '-' nor ','

  /** Python's `float(text)`: a partial parser, `None` where it raises ValueError. */
  type Parser = string -> Option<real>

  /** What the loop of `get_range_for_list` makes of one element. */
  function AsNumber(v: Value, parse: Parser): Option<real> {
    match v
    case Str(s) => parse(s)
    case Int(i) => Some(i as real)
    case Float(x) => Some(x)
    case _ => None
  }

  /** Python's `min` and `max` of a two-element list. */
  function Min(a: real, b: real): real { if b < a then b else a }
  function Max(a: real, b: real): real { if b > a then b else a }

  /** The result `get_range_for_list` specifies for a tuple or list of values. */
  function ListRange(items: seq<Value>, parse: Parser): (r: Result<Range, RangeError>)
    ensures |items| != 2 ==> r == Failure(NeedsTwoNumbers)
    ensures |items| == 2 ==>
      (r.Success? <==> AsNumber(items[0], parse).Some? && AsNumber(items[1], parse).Some?)
    ensures |items| == 2 && r.Failure? ==> r.error == NeedsNumbers
    ensures r.Success? ==> r.value.lo <= r.value.hi
    ensures r.Success? ==>
      {r.value.lo, r.value.hi} == {AsNumber(items[0], parse).value, AsNumber(items[1], parse).value}
  {
    if |items| != 2 then Failure(NeedsTwoNumbers)
    else match (AsNumber(items[0], parse), AsNumber(items[1], parse))
      case (Some(a), Some(b)) => Success(Range(Min(a, b), Max(a, b)))
      case _ => Failure(NeedsNumbers)
  }

  /**
   * `get_range_for_list`: after the length check, a loop converts each
   * element (a str through `float`, an int or float as it is) and appends
   * it to a list, raising at the first element that is not a number.
   */
  method GetRangeForList(items: seq<Value>, parse: Parser) returns (r: Result<Range, RangeError>)
    ensures r == ListRange(items, parse)
  {
    if |items| != 2 {
      return Failure(NeedsTwoNumbers);
    }
    var numbers: seq<real> := [];
    for i := 0 to |items|
      invariant |numbers| == i
      invariant forall k :: 0 <= k < i ==> AsNumber(items[k], parse) == Some(numbers[k])
    {
      var el := items[i];
      if el.Str? {
        var parsed := parse(el.s);
        if parsed.None? {
          return Failure(NeedsNumbers);
        }
        numbers := numbers + [parsed.value];
      } else if !IsNumber(el) {
        return Failure(NeedsNumbers);
      } else {
        numbers := numbers + [NumberOf(el)];
      }
    }
    return Success(Range(Min(numbers[0], numbers[1]), Max(numbers[0], numbers[1])));
  }

  /**
   * `get_range_for_str`: a text that `float` accepts is the range (x, x);
   * otherwise the text must hold exactly one kind of separator, '-' or ',',
   * and split on it into exactly two numbers.
   */
  function GetRangeForStr(s: string, parse: Parser): (r: Result<Range, RangeError>)
    ensures parse(s).Some? ==> r == Success(Range(parse(s).value, parse(s).value))
    ensures parse(s).None? ==> (r == Failure(MixedSeparators) <==> '-' in s && ',' in s)
    ensures parse(s).None? ==> (r == Failure(NoSeparator) <==> '-' !in s && ',' !in s)
    ensures parse(s).None? && ('-' in s) != (',' in s) ==>
      (r == Failure(NeedsTwoNumbers) <==> |Split(s, if '-' in s then '-' else ',')| != 2)
    ensures r.Failure? ==> r.error != NotARange
    ensures r.Success? ==> r.value.lo <= r.value.hi
  {
    match parse(s)
    case Some(x) => Success(Range(x, x))
    case None =>
      var dash := '-' in s;
      var comma := ',' in s;
      if dash && comma then Failure(MixedSeparators)
      else if !dash && !comma then Failure(NoSeparator)
      else
        var parts := Split(s, if dash then '-' else ',');
        if |parts| != 2 then Failure(NeedsTwoNumbers)
        else ListRange([Str(parts[0]), Str(parts[1])], parse)
  }

  /**
   * "a-b" and "a,b" (one separator, no other kind, not a number as a whole)
   * give the range of the two texts on either side of the separator.
   */
  lemma RangeForStrOfTwoParts(a: string, b: string, sep: char, parse: Parser)
    requires sep == '-' || sep == ','
    requires sep !in a && sep !in b
    requires (if sep == '-' then ',' else '-') !in a + b
    requires parse(a + [sep] + b).None?
    ensures GetRangeForStr(a + [sep] + b, parse) == ListRange([Str(a), Str(b)], parse)
  {
    var s := a + [sep] + b;
    assert Join([a, b], sep) == s;
    SplitJoin([a, b], sep);
    assert sep in s by { assert s[|a|] == sep; }
    var other := if sep == '-' then ',' else '-';
    assert other !in s by {
      forall k | 0 <= k < |s| ensures s[k] != other {
        if k < |a| { assert s[k] == (a + b)[k]; }
        else if k > |a| { assert s[k] == (a + b)[k - 1]; }
      }
    }
  }

  /** `get_range`: tuples and lists go to `get_range_for_list`, strings to `get_range_for_str`. */
  function GetRange(v: Value, parse: Parser): (r: Result<Range, RangeError>)
    ensures r == Failure(NotARange) <==> !(v.Str? || v.List? || v.Tuple?)
    ensures v.List? || v.Tuple? ==> r == ListRange(v.items, parse)
    ensures v.Str? ==> r == GetRangeForStr(v.s, parse)
    ensures r.Success? ==> r.value.lo <= r.value.hi
  {
    if v.Tuple? || v.List? then ListRange(v.items, parse)
    else if v.Str? then GetRangeForStr(v.s, parse)
    else Failure(NotARange)
  }
}
