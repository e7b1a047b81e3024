/**
 * Flag-string converters (flags/Converters.java): how a flag's text becomes a value of the
 * flag's declared type, and which converter converterFor picks for a type.
 */
module FlagConverters {
  import opened Wrappers
  import opened Errors
  import opened Text
  import opened Sequences

  /** The raw (outer) class of a flag type. */
  datatype RawType =
    | ListType | SetType | OptionalType
    | EnumType(name: string)
    | IntegerType | IntType | StringType | FileType | UriType | PeriodType | DurationType
    | BooleanType | DoubleType
    | OtherType(name: string)

  /** A flag type: a raw class, possibly with one type argument. */
  datatype FlagType = Plain(raw: RawType) | Parameterized(outer: RawType, arg: FlagType)

  /** The converters of the file. */
  datatype Converter =
    | IntConverter | BooleanConverter | StringConverter | DoubleConverter
    | FileConverter | UriConverter | PeriodConverter | DurationConverter
    | EnumConverter(name: string)
    | ListConverter(inner: Converter)
    | SetConverter(inner: Converter)
    | OptionalConverter(inner: Converter)

  /**
   * A parsed flag value. File, URI, Period, Duration, Double and enum parsing is library code;
   * such a value keeps the text it was given.
   */
  datatype Value =
    | IntValue(i: int)
    | BoolValue(b: bool)
    | StringValue(s: Option<string>)
    | ListValue(items: seq<Value>)
    | SetValue(items: seq<Value>)
    | OptionalValue(present: Option<Value>)
    | LibraryValue(kind: Converter, text: string)

  /**
   * converterFor: a parameterized type gets the converter of its argument first (whatever its
   * outer class), then a List, Set or Optional converter around it; a plain type its own
   * converter. Boolean, Double and every other raw class throw IllegalArgumentException.
   */
  function ConverterFor(t: FlagType): (r: Result<Converter, JavaError>)
    ensures r.Failure? ==> r.error == IllegalArgument
    ensures t.Plain? ==> (r.Success? <==> t.raw !in {ListType, SetType, OptionalType, BooleanType, DoubleType} && !t.raw.OtherType?)
    ensures t.Parameterized? ==>
              (r.Success? <==> ConverterFor(t.arg).Success? && t.outer in {ListType, SetType, OptionalType})
    ensures t.Parameterized? && r.Success? ==>
              && (r.value.ListConverter? || r.value.SetConverter? || r.value.OptionalConverter?)
              && r.value.inner == ConverterFor(t.arg).value
              && (r.value.ListConverter? <==> t.outer == ListType)
              && (r.value.SetConverter? <==> t.outer == SetType)
  {
    match t
    case Parameterized(outer, arg) =>
      (match ConverterFor(arg)
       case Failure(e) => Failure(e)
       case Success(inner) =>
         match outer
         case ListType => Success(ListConverter(inner))
         case SetType => Success(SetConverter(inner))
         case OptionalType => Success(OptionalConverter(inner))
         case _ => Failure(IllegalArgument))
    case Plain(raw) =>
      match raw
      case EnumType(name) => Success(EnumConverter(name))
      case IntegerType => Success(IntConverter)
      case IntType => Success(IntConverter)
      case StringType => Success(StringConverter)
      case FileType => Success(FileConverter)
      case UriType => Success(UriConverter)
      case PeriodType => Success(PeriodConverter)
      case DurationType => Success(DurationConverter)
      case _ => Failure(IllegalArgument)
  }

  /**
   * Converter.parse. A null string: false for the boolean converter, null for the string
   * converter, absent for the optional converter, and an exception elsewhere
   * (NumberFormatException from Integer.valueOf, NullPointerException from the others).
   */
  function Parse(c: Converter, s: Option<string>): (r: Result<Value, JavaError>)
    ensures c.ListConverter? && r.Success? ==> s.Some? && r.value.ListValue? && |r.value.items| == |SplitTrim(s.value, ',')|
    ensures c.SetConverter? && r.Success? ==> s.Some? && r.value.SetValue? && |r.value.items| <= |SplitTrim(s.value, ',')|
    ensures c.OptionalConverter? && r.Success? ==> r.value.OptionalValue?
    ensures c.StringConverter? ==> r == Success(StringValue(s))
    decreases c, 0
  {
    match c
    case IntConverter =>
      (match ParseInt(s)
       case Success(i) => Success(IntValue(i))
       case Failure(e) => Failure(e))
    case BooleanConverter =>
      Success(BoolValue(!(s.None? || EqualsIgnoreCase(s.value, "false") || EqualsIgnoreCase(s.value, "f"))))
    case StringConverter => Success(StringValue(s))
    case ListConverter(inner) =>
      if s.None? then Failure(NullPointer)
      else
        (match ParseAll(inner, SplitTrim(s.value, ','))
         case Success(vs) => Success(ListValue(vs))
         case Failure(e) => Failure(e))
    case SetConverter(inner) =>
      if s.None? then Failure(NullPointer)
      else
        (match ParseAll(inner, SplitTrim(s.value, ','))
         case Success(vs) => Success(SetValue(FirstOccurrences(vs)))  // ImmutableSet.Builder
         case Failure(e) => Failure(e))
    case OptionalConverter(inner) =>
      if s.None? || s.value == [] then Success(OptionalValue(None))
      else if s.value[0] != '+' then Failure(IllegalArgument)
      else
        (match Parse(inner, Some(s.value[1..]))
         case Success(v) => Success(OptionalValue(Some(v)))
         case Failure(e) => Failure(e))
    case _ =>
      if s.None? then Failure(NullPointer) else Success(LibraryValue(c, s.value))
  }

  /**
   * The results of a loop that adds each value to a builder in order: every value when all
   * succeed, and otherwise the error of the first failure, which ends the loop.
   */
  function Collect(rs: seq<Result<Value, JavaError>>): (r: Result<seq<Value>, JavaError>)
    ensures r.Success? <==> forall i :: 0 <= i < |rs| ==> rs[i].Success?
    ensures r.Success? ==> |r.value| == |rs| && forall i :: 0 <= i < |rs| ==> r.value[i] == rs[i].value
    ensures r.Failure? ==>
              exists k :: 0 <= k < |rs| && rs[k] == Failure(r.error) && forall i :: 0 <= i < k ==> rs[i].Success?
  {
    if rs == [] then Success([])
    else
      var rest := rs[1..];
      assert forall i :: 0 <= i < |rest| ==> rest[i] == rs[i + 1];
      match rs[0]
      case Failure(e) => Failure(e)
      case Success(v) =>
        (match Collect(rest)
         case Failure(e) =>
           assert exists k :: 0 <= k < |rs| && rs[k] == Failure(e) && forall i :: 0 <= i < k ==> rs[i].Success? by {
             var k :| 0 <= k < |rest| && rest[k] == Failure(e) && forall i :: 0 <= i < k ==> rest[i].Success?;
             assert rs[k + 1] == Failure(e);
             forall i | 0 <= i < k + 1
               ensures rs[i].Success?
             {
               if i > 0 {
                 assert rs[i] == rest[i - 1];
               }
             }
           }
           Failure(e)
         case Success(vs) => Success([v] + vs))
  }

  /** Each piece parsed in order; the first failure is thrown. */
  function ParseAll(c: Converter, pieces: seq<string>): (r: Result<seq<Value>, JavaError>)
    ensures r.Success? ==> |r.value| == |pieces|
    decreases c, |pieces| + 1
  {
    if pieces == [] then Success([])
    else
      match Parse(c, Some(pieces[0]))
      case Failure(e) => Failure(e)
      case Success(v) =>
        (match ParseAll(c, pieces[1..])
         case Failure(e) => Failure(e)
         case Success(vs) => Success([v] + vs))
  }

  /** The parse of each piece, in order. */
  function Parses(c: Converter, pieces: seq<string>): (rs: seq<Result<Value, JavaError>>)
    ensures |rs| == |pieces|
  {
    seq(|pieces|, i requires 0 <= i < |pieces| => Parse(c, Some(pieces[i])))
  }

  /** ParseAll is Collect over the parses of the pieces. */
  lemma {:induction false} ParseAllCollects(c: Converter, pieces: seq<string>)
    ensures ParseAll(c, pieces) == Collect(Parses(c, pieces))
  {
    if pieces != [] {
      var rest := pieces[1..];
      ParseAllCollects(c, rest);
      assert Parses(c, pieces)[1..] == Parses(c, rest);
      assert Parses(c, pieces)[0] == Parse(c, Some(pieces[0]));
    }
  }

  /**
   * ParseAll holds the value of every piece when every piece parses, and otherwise throws the
   * error of the first piece that does not.
   */
  lemma ParseAllPieces(c: Converter, pieces: seq<string>)
    ensures var r := ParseAll(c, pieces);
            && (r.Success? <==> forall i :: 0 <= i < |pieces| ==> Parse(c, Some(pieces[i])).Success?)
            && (r.Success? ==> forall i :: 0 <= i < |pieces| ==> r.value[i] == Parse(c, Some(pieces[i])).value)
            && (r.Failure? ==>
                  exists k :: && 0 <= k < |pieces| && Parse(c, Some(pieces[k])) == Failure(r.error)
                              && forall i :: 0 <= i < k ==> Parse(c, Some(pieces[i])).Success?)
  {
    ParseAllCollects(c, pieces);
    var rs := Parses(c, pieces);
    assert forall i :: 0 <= i < |pieces| ==> rs[i] == Parse(c, Some(pieces[i]));
  }

  /** The list converter parses the trimmed comma-separated pieces with ParseAll. */
  lemma ListParsesPieces(inner: Converter, s: string)
    ensures var all := ParseAll(inner, SplitTrim(s, ','));
            && (all.Success? ==> Parse(ListConverter(inner), Some(s)) == Success(ListValue(all.value)))
            && (all.Failure? ==> Parse(ListConverter(inner), Some(s)) == Failure(all.error))
  {
    var c := ListConverter(inner);
    var r := Parse(c, Some(s));
    match ParseAll(inner, SplitTrim(s, ','))
    case Success(vs) =>
      assert r == Success(ListValue(vs));
    case Failure(e) =>
      assert r == Failure(e);
  }

  /** The set converter parses them the same way and keeps the first occurrence of each value. */
  lemma SetParsesPieces(inner: Converter, s: string)
    ensures var all := ParseAll(inner, SplitTrim(s, ','));
            && (all.Success? ==> Parse(SetConverter(inner), Some(s)) == Success(SetValue(FirstOccurrences(all.value))))
            && (all.Failure? ==> Parse(SetConverter(inner), Some(s)) == Failure(all.error))
  {
    var c := SetConverter(inner);
    var r := Parse(c, Some(s));
    match ParseAll(inner, SplitTrim(s, ','))
    case Success(vs) =>
      assert r == Success(SetValue(FirstOccurrences(vs)));
    case Failure(e) =>
      assert r == Failure(e);
  }

  /**
   * A list flag: the text is split at commas and trimmed; the flag parses exactly when every
   * piece parses, and then holds the value of each piece, in order; otherwise it fails with the
   * error of the first piece that does not parse.
   */
  lemma ListPieces(inner: Converter, s: string)
    ensures var r := Parse(ListConverter(inner), Some(s));
            var pieces := SplitTrim(s, ',');
            && (r.Success? <==> forall i :: 0 <= i < |pieces| ==> Parse(inner, Some(pieces[i])).Success?)
            && (r.Success? ==>
                  && r.value.ListValue? && |r.value.items| == |pieces|
                  && forall i :: 0 <= i < |pieces| ==> r.value.items[i] == Parse(inner, Some(pieces[i])).value)
            && (r.Failure? ==>
                  exists k :: && 0 <= k < |pieces| && Parse(inner, Some(pieces[k])) == Failure(r.error)
                              && forall i :: 0 <= i < k ==> Parse(inner, Some(pieces[i])).Success?)
  {
    ListParsesPieces(inner, s);
    ParseAllPieces(inner, SplitTrim(s, ','));
  }

  /** The boolean converter answers false exactly for null, "false" and "f", in any case. */
  lemma BooleanFalseExactly(s: Option<string>)
    ensures Parse(BooleanConverter, s) == Success(BoolValue(false)) <==>
              s.None? || EqualsIgnoreCase(s.value, "false") || EqualsIgnoreCase(s.value, "f")
  {
  }

  /** "FALSE" and "F" are false too; "no" is true. */
  lemma BooleanExamples()
    ensures Parse(BooleanConverter, Some("FALSE")) == Success(BoolValue(false))
    ensures Parse(BooleanConverter, Some("F")) == Success(BoolValue(false))
    ensures Parse(BooleanConverter, Some("no")) == Success(BoolValue(true))
  {
    assert Lower("FALSE") == "false";
    assert Lower("F") == "f";
    assert Lower("no") == "no";
  }

  /** The string converter is the identity. */
  lemma StringIdentity(s: Option<string>)
    ensures ConverterFor(Plain(StringType)) == Success(StringConverter)
    ensures ConverterFor(Parameterized(ListType, Plain(StringType))) == Success(ListConverter(StringConverter))
    ensures Parse(StringConverter, s) == Success(StringValue(s))
  {
  }

  /** The string converter accepts every piece and keeps it as it is. */
  lemma {:induction false} StringListPieces(pieces: seq<string>)
    ensures ParseAll(StringConverter, pieces).Success?
    ensures |ParseAll(StringConverter, pieces).value| == |pieces|
    ensures forall i :: 0 <= i < |pieces| ==> ParseAll(StringConverter, pieces).value[i] == StringValue(Some(pieces[i]))
  {
    if pieces != [] {
      StringListPieces(pieces[1..]);
    }
  }

  /** A List<String> flag holds every trimmed piece of its text, in order, empty ones included. */
  lemma StringList(c: Converter, s: string)
    requires c == ListConverter(StringConverter)
    ensures var items := Parse(c, Some(s));
            var pieces := SplitTrim(s, ',');
            && items.Success? && |items.value.items| == |pieces|
            && forall i :: 0 <= i < |pieces| ==> items.value.items[i] == StringValue(Some(pieces[i]))
  {
    StringListPieces(SplitTrim(s, ','));
    ListParsesPieces(StringConverter, s);
  }

  /**
   * A set flag holds each list item once, in the order of its first occurrence
   * (ImmutableSet keeps insertion order), and nothing else.
   */
  lemma SetIsListWithoutRepeats(inner: Converter, s: string)
    ensures Parse(SetConverter(inner), Some(s)).Success? <==> Parse(ListConverter(inner), Some(s)).Success?
    ensures Parse(SetConverter(inner), Some(s)).Success? ==>
              var set_items := Parse(SetConverter(inner), Some(s)).value.items;
              var list_items := Parse(ListConverter(inner), Some(s)).value.items;
              && set_items == FirstOccurrences(list_items)
              && (forall x :: x in set_items <==> x in list_items)
              && Distinct(set_items)
  {
    var all := ParseAll(inner, SplitTrim(s, ','));
    ListParsesPieces(inner, s);
    SetParsesPieces(inner, s);
    if all.Success? {
      FirstOccurrencesDistinct(all.value);
    }
  }

  /** An optional flag: empty text is absent, "+" followed by text is that text parsed. */
  lemma OptionalPlus(inner: Converter, t: string)
    ensures Parse(OptionalConverter(inner), Some("")) == Success(OptionalValue(None))
    ensures Parse(OptionalConverter(inner), Some("+" + t)).Success? <==> Parse(inner, Some(t)).Success?
    ensures Parse(inner, Some(t)).Success? ==>
              Parse(OptionalConverter(inner), Some("+" + t)) == Success(OptionalValue(Some(Parse(inner, Some(t)).value)))
  {
    assert ("+" + t)[1..] == t;
  }

  /** Text without the leading '+' is refused. */
  lemma OptionalNeedsPlus(inner: Converter, t: string)
    requires t != [] && t[0] != '+'
    ensures Parse(OptionalConverter(inner), Some(t)) == Failure(IllegalArgument)
  {
  }

  /** converterFor(Boolean) throws: the boolean converter is never chosen. */
  lemma BooleanNotDispatched()
    ensures ConverterFor(Plain(BooleanType)) == Failure(IllegalArgument)
    ensures ConverterFor(Parameterized(ListType, Plain(BooleanType))) == Failure(IllegalArgument)
  {
  }
}
