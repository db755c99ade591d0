/**
 * The PERIOD property value of section 3.3.9 of RFC 5545: a list of parts, each
 * `start/end` or `start/duration`, with conversions to and from the raw
 * delimited text, the JSON form (a list of two-element lists) and the XML form.
 */
module ICalendarPeriod {
  import opened Wrappers
  import opened Strings
  import opened DateTimes

  /** The second half of a period: a duration literal, kept as text, or an end date-time. */
  datatype Tail = Duration(literal: string) | End(end: DateTime)

  /** One period, as the JSON output reads it from a stored part. */
  datatype Entry = Entry(start: DateTime, tail: Tail)

  datatype Error =
    | InvalidDateTime(text: string)  // the date-time parser rejected `text`

  /** The date-time parser the code calls (`DateTimeParser::parseDateTime`). */
  type Parser = string -> Option<DateTime>

  /** A second half is a duration exactly when its first character is `P`. */
  predicate IsDuration(tail: string) {
    |tail| > 0 && tail[0] == 'P'
  }

  /**
   * Reads one stored part: split at the first `/`, parse the start, then keep a
   * duration verbatim or parse the end. The start is parsed before anything is
   * checked about the second half. A part without `/` has a null second half,
   * which is not a duration and reaches the parser as the empty text.
   */
  function DecodePart(part: string, parse: Parser): Result<Entry, Error>
  {
    var (startText, tail) := SplitFirst(part, '/');
    match parse(startText)
    case None => Failure(InvalidDateTime(startText))
    case Some(start) =>
      var t := if tail.Some? then tail.value else "";
      if IsDuration(t) then Success(Entry(start, Duration(t)))
      else match parse(t)
        case None => Failure(InvalidDateTime(t))
        case Some(end) => Success(Entry(start, End(end)))
  }

  /**
   * A part without `/` is the start alone: after the start, the parser is
   * handed the empty text as the end, and the part decodes only if it accepts it.
   */
  lemma DecodeNoSlash(part: string, parse: Parser)
    requires '/' !in part
    ensures DecodePart(part, parse) ==
            match parse(part)
            case None => Failure(InvalidDateTime(part))
            case Some(start) =>
              match parse("")
              case None => Failure(InvalidDateTime(""))
              case Some(end) => Success(Entry(start, End(end)))
  {
  }

  /**
   * A duration second half is carried verbatim, even when it holds `/`; only the
   * start is parsed.
   */
  lemma DecodeDuration(s: string, t: string, parse: Parser)
    requires '/' !in s && IsDuration(t)
    ensures DecodePart(s + "/" + t, parse) ==
            match parse(s)
            case None => Failure(InvalidDateTime(s))
            case Some(start) => Success(Entry(start, Duration(t)))
  {
    SplitFirstAt(s, t, '/');
  }

  /** No parse is attempted on a duration: parsers that agree on the start decode alike. */
  lemma DurationNotParsed(s: string, t: string, parse1: Parser, parse2: Parser)
    requires '/' !in s && IsDuration(t) && parse1(s) == parse2(s)
    ensures DecodePart(s + "/" + t, parse1) == DecodePart(s + "/" + t, parse2)
  {
    DecodeDuration(s, t, parse1);
    DecodeDuration(s, t, parse2);
  }

  /**
   * Any other second half is parsed as the end; a failure on the start wins over
   * one on the end.
   */
  lemma DecodeEnd(s: string, t: string, parse: Parser)
    requires '/' !in s && !IsDuration(t)
    ensures DecodePart(s + "/" + t, parse) ==
            if parse(s).None? then Failure(InvalidDateTime(s))
            else if parse(t).None? then Failure(InvalidDateTime(t))
            else Success(Entry(parse(s).value, End(parse(t).value)))
  {
    SplitFirstAt(s, t, '/');
  }

  /** The two-element JSON list for one period. */
  function ToJson(e: Entry): seq<string>
  {
    [Format(e.start), match e.tail case Duration(l) => l case End(dt) => Format(dt)]
  }

  /**
   * The outcome of a loop whose body may throw: every value in order, or the
   * error of the first failing step.
   */
  function Collect<T>(rs: seq<Result<T, Error>>): Result<seq<T>, Error>
    decreases |rs|
  {
    if rs == [] then Success([])
    else
      match Collect(rs[..|rs| - 1])
      case Failure(e) => Failure(e)
      case Success(init) =>
        match rs[|rs| - 1]
        case Failure(e) => Failure(e)
        case Success(v) => Success(init + [v])
  }

  /** Collecting succeeds exactly when every step does, and keeps every value in order. */
  lemma {:induction false} CollectSuccess<T>(rs: seq<Result<T, Error>>)
    ensures Collect(rs).Success? <==> forall i :: 0 <= i < |rs| ==> rs[i].Success?
    ensures Collect(rs).Success? ==>
            |Collect(rs).value| == |rs| &&
            forall i :: 0 <= i < |rs| ==> rs[i] == Success(Collect(rs).value[i])
    decreases |rs|
  {
    if rs != [] {
      var init := rs[..|rs| - 1];
      CollectSuccess(init);
      assert forall i :: 0 <= i < |init| ==> init[i] == rs[i];
    }
  }

  /** A failed collection reports the error of the first failing step. */
  lemma {:induction false} CollectFailure<T>(rs: seq<Result<T, Error>>)
    requires Collect(rs).Failure?
    ensures exists i :: 0 <= i < |rs| && rs[i] == Failure(Collect(rs).error) &&
                        forall j :: 0 <= j < i ==> rs[j].Success?
    decreases |rs|
  {
    var n := |rs| - 1;
    var init := rs[..n];
    assert forall i :: 0 <= i < n ==> init[i] == rs[i];
    if Collect(init).Failure? {
      CollectFailure(init);
      var i :| 0 <= i < n && init[i] == Failure(Collect(init).error) &&
               forall j :: 0 <= j < i ==> init[j].Success?;
      assert rs[i] == Failure(Collect(rs).error);
    } else {
      CollectSuccess(init);
      assert rs[n] == Failure(Collect(rs).error);
    }
  }

  /** Once a prefix of the steps fails, the whole collection fails with the same error. */
  lemma {:induction false} CollectFailurePrefix<T>(rs: seq<Result<T, Error>>, k: nat)
    requires k <= |rs| && Collect(rs[..k]).Failure?
    ensures Collect(rs) == Collect(rs[..k])
    decreases |rs| - k
  {
    if k < |rs| {
      assert rs[..k + 1][..k] == rs[..k];
      CollectFailurePrefix(rs, k + 1);
    } else {
      assert rs[..k] == rs;
    }
  }

  /** One stored part read into its JSON list. */
  function PartJson(part: string, parse: Parser): Result<seq<string>, Error> {
    match DecodePart(part, parse)
    case Failure(e) => Failure(e)
    case Success(entry) => Success(ToJson(entry))
  }

  /** The step results of the `foreach` loop of `getJsonValue`. */
  function PartsJson(parts: seq<string>, parse: Parser): seq<Result<seq<string>, Error>> {
    seq(|parts|, i requires 0 <= i < |parts| => PartJson(parts[i], parse))
  }

  /** `getJsonValue`: one JSON list per stored part, or the first part's error. */
  function JsonValue(parts: seq<string>, parse: Parser): Result<seq<seq<string>>, Error> {
    Collect(PartsJson(parts, parse))
  }

  /**
   * The JSON value succeeds exactly when every part decodes, and then holds one
   * pair per part, in order.
   */
  lemma JsonValueSuccess(parts: seq<string>, parse: Parser)
    ensures JsonValue(parts, parse).Success? <==>
            forall i :: 0 <= i < |parts| ==> DecodePart(parts[i], parse).Success?
    ensures JsonValue(parts, parse).Success? ==>
            |JsonValue(parts, parse).value| == |parts| &&
            forall i :: 0 <= i < |parts| ==>
              JsonValue(parts, parse).value[i] == ToJson(DecodePart(parts[i], parse).value)
  {
    var rs := PartsJson(parts, parse);
    CollectSuccess(rs);
    assert |rs| == |parts|;
    forall i | 0 <= i < |parts|
      ensures rs[i].Success? <==> DecodePart(parts[i], parse).Success?
      ensures rs[i].Success? ==> rs[i].value == ToJson(DecodePart(parts[i], parse).value)
    {
      assert rs[i] == PartJson(parts[i], parse);
    }
  }

  /** A failing JSON value reports the error of the first part that does not decode. */
  lemma JsonValueFailure(parts: seq<string>, parse: Parser)
    requires JsonValue(parts, parse).Failure?
    ensures exists i :: 0 <= i < |parts| &&
              DecodePart(parts[i], parse) == Failure(JsonValue(parts, parse).error) &&
              forall j :: 0 <= j < i ==> DecodePart(parts[j], parse).Success?
  {
    var rs := PartsJson(parts, parse);
    CollectFailure(rs);
    var i :| 0 <= i < |rs| && rs[i] == Failure(JsonValue(parts, parse).error) &&
             forall j :: 0 <= j < i ==> rs[j].Success?;
    forall j | 0 <= j <= i
      ensures rs[j].Success? <==> DecodePart(parts[j], parse).Success?
      ensures rs[j].Failure? ==> rs[j].error == DecodePart(parts[j], parse).error
    {
      assert rs[j] == PartJson(parts[j], parse);
    }
  }

  /** `implode('/', $item)` followed by the deletion of every `:` and `-`. */
  function FlattenEntry(item: seq<string>): string {
    StripSeparators(Join(item, "/"))
  }

  /** The closure of `setJsonValue`, mapped over the JSON entries. */
  function FlattenEntries(value: seq<seq<string>>): seq<string> {
    seq(|value|, i requires 0 <= i < |value| => FlattenEntry(value[i]))
  }

  /**
   * A two-element entry becomes its halves, each without `:` or `-`, joined by a
   * `/` that is kept; flattening again changes nothing.
   */
  lemma FlattenPair(a: string, b: string)
    ensures FlattenEntry([a, b]) == StripSeparators(a) + "/" + StripSeparators(b)
    ensures NoSeparators(FlattenEntry([a, b]))
    ensures StripSeparators(FlattenEntry([a, b])) == FlattenEntry([a, b])
  {
    assert Join([a, b], "/") == a + "/" + b;
    StripConcat(a, "/" + b);
    StripConcat("/", b);
    assert a + "/" + b == a + ("/" + b);
    StripIdempotent(a + "/" + b);
  }

  /**
   * The separated `Y-m-d\TH:i:s` spelling and the compact spelling of the same
   * period flatten to the same part.
   */
  lemma FlattenSeparatedCompact(start: DateTime, end: DateTime)
    ensures FlattenEntry([Format(start), Format(end)]) ==
            FlattenEntry([Compact(start), Compact(end)]) ==
            Compact(start) + "/" + Compact(end)
  {
    FlattenPair(Format(start), Format(end));
    FlattenPair(Compact(start), Compact(end));
    StripFormat(start);
    StripFormat(end);
    CompactPlain(start);
    CompactPlain(end);
    StripUnchanged(Compact(start));
    StripUnchanged(Compact(end));
  }

  /**
   * A stored part in compact form: `start/tail` where the start is the compact
   * form of what the parser reads from it, and the tail is a duration free of
   * `:` and `-` or again such a compact end.
   */
  predicate Canonical(part: string, parse: Parser) {
    var (s, t) := SplitFirst(part, '/');
    && t.Some?
    && parse(s).Some? && Compact(parse(s).value) == s
    && if IsDuration(t.value) then NoSeparators(t.value)
       else parse(t.value).Some? && Compact(parse(t.value).value) == t.value
  }

  /** Reading a canonical part to JSON and writing the pair back restores the part. */
  lemma PartRoundTrip(part: string, parse: Parser)
    requires Canonical(part, parse)
    ensures DecodePart(part, parse).Success?
    ensures FlattenEntry(ToJson(DecodePart(part, parse).value)) == part
  {
    var (s, t) := SplitFirst(part, '/');
    var e := DecodePart(part, parse).value;
    StripFormat(e.start);
    match e.tail
    case Duration(l) =>
      StripUnchanged(l);
      FlattenPair(Format(e.start), l);
    case End(dt) =>
      StripFormat(dt);
      FlattenPair(Format(e.start), Format(dt));
  }

  /** `setJsonValue(getJsonValue())` leaves canonical parts as they were. */
  lemma JsonRoundTrip(parts: seq<string>, parse: Parser)
    requires forall i :: 0 <= i < |parts| ==> Canonical(parts[i], parse)
    ensures JsonValue(parts, parse).Success?
    ensures FlattenEntries(JsonValue(parts, parse).value) == parts
  {
    forall i | 0 <= i < |parts| ensures DecodePart(parts[i], parse).Success? {
      PartRoundTrip(parts[i], parse);
    }
    JsonValueSuccess(parts, parse);
    var out := JsonValue(parts, parse).value;
    forall i | 0 <= i < |parts| ensures FlattenEntries(out)[i] == parts[i] {
      PartRoundTrip(parts[i], parse);
    }
  }

  /** `x` is a `Y-m-d\TH:i:s` rendering that the parser reads back once compacted. */
  predicate ReadsBack(x: string, parse: Parser) {
    var dt := parse(StripSeparators(x));
    dt.Some? && Format(dt.value) == x
  }

  /**
   * A JSON entry as `getJsonValue` produces it: a readable start, then a duration
   * free of `:` and `-` or a readable end.
   */
  predicate WellFormedEntry(item: seq<string>, parse: Parser) {
    && |item| == 2
    && ReadsBack(item[0], parse)
    && if IsDuration(item[1]) then NoSeparators(item[1]) else ReadsBack(item[1], parse)
  }

  /** Writing a well-formed entry and reading it back gives the entry. */
  lemma EntryRoundTrip(item: seq<string>, parse: Parser)
    requires WellFormedEntry(item, parse)
    ensures DecodePart(FlattenEntry(item), parse).Success?
    ensures ToJson(DecodePart(FlattenEntry(item), parse).value) == item
  {
    var a, b := item[0], item[1];
    assert item == [a, b];
    FlattenPair(a, b);
    var start := parse(StripSeparators(a)).value;
    StripFormat(start);
    CompactPlain(start);
    var s := StripSeparators(a);
    if IsDuration(b) {
      StripUnchanged(b);
      DecodeDuration(s, b, parse);
    } else {
      var end := parse(StripSeparators(b)).value;
      StripFormat(end);
      var t := StripSeparators(b);
      assert t == Compact(end);
      assert t[0] != 'P' by {
        assert |ZeroPad(end.year, 4)| >= 4;
        assert t[0] == ZeroPad(end.year, 4)[0];
      }
      DecodeEnd(s, t, parse);
    }
  }

  /** `getJsonValue()` after `setJsonValue(value)` returns `value` for well-formed entries. */
  lemma JsonSetGet(value: seq<seq<string>>, parse: Parser)
    requires forall i :: 0 <= i < |value| ==> WellFormedEntry(value[i], parse)
    ensures JsonValue(FlattenEntries(value), parse) == Success(value)
  {
    var parts := FlattenEntries(value);
    var rs := PartsJson(parts, parse);
    assert |rs| == |value|;
    forall i | 0 <= i < |rs| ensures rs[i] == Success(value[i]) {
      assert rs[i] == PartJson(FlattenEntry(value[i]), parse);
      EntryRoundTrip(value[i], parse);
    }
    CollectSuccess(rs);
    var out := Collect(rs).value;
    assert forall i :: 0 <= i < |rs| ==> out[i] == value[i];
    assert out == value;
    assert JsonValue(parts, parse) == Collect(rs);
  }

  /** The PERIOD property: a delimiter for multi-values and the stored parts. */
  class Period {
    /** Separates the parts in the raw text form; a comma unless changed. */
    var delimiter: string
    /** The stored value list, one `start/tail` text per period. */
    var parts: seq<string>

    constructor (value: seq<string>)
      ensures delimiter == "," && parts == value
    {
      delimiter := ",";
      parts := value;
    }

    /** Stores the pieces of `val` between the delimiters. */
    method SetRawMimeDirValue(val: string)
      requires |delimiter| > 0
      modifies this`parts
      ensures parts == Split(val, delimiter)
      ensures Join(parts, delimiter) == val
      ensures |parts| == Count(val, delimiter) + 1
      ensures forall p :: p in parts ==> !Contains(p, delimiter)
    {
      parts := Split(val, delimiter);
      JoinSplit(val, delimiter);
      SplitCount(val, delimiter);
      SplitPartsFree(val, delimiter);
    }

    /** The stored parts joined by the delimiter. */
    method GetRawMimeDirValue() returns (val: string)
      ensures val == Join(parts, delimiter)
      ensures |delimiter| > 0 ==>
              (Split(val, delimiter) == parts <==> Recoverable(parts, delimiter))
    {
      val := Join(parts, delimiter);
      if |delimiter| > 0 {
        SplitJoin(parts, delimiter);
      }
    }

    /** The value type named by the `VALUE=` parameter. */
    method GetValueType() returns (t: string)
      ensures t == "PERIOD"
    {
      t := "PERIOD";
    }

    /** Stores one flattened part per JSON entry, in order. */
    method SetJsonValue(value: seq<seq<string>>)
      modifies this`parts
      ensures parts == FlattenEntries(value)
      ensures |parts| == |value|
      ensures forall i :: 0 <= i < |parts| ==> NoSeparators(parts[i])
    {
      parts := FlattenEntries(value);
      forall i | 0 <= i < |parts| ensures NoSeparators(parts[i]) {
        StripIdempotent(Join(value[i], "/"));
      }
    }

    /** Reads every stored part into a two-element JSON list. */
    method GetJsonValue(parse: Parser) returns (r: Result<seq<seq<string>>, Error>)
      ensures r == JsonValue(parts, parse)
    {
      ghost var steps := PartsJson(parts, parse);
      var out: seq<seq<string>> := [];
      var i := 0;
      while i < |parts|
        invariant 0 <= i <= |parts|
        invariant Collect(steps[..i]) == Success(out)
      {
        assert steps[..i + 1] == steps[..i] + [steps[i]];
        assert steps[i] == PartJson(parts[i], parse);
        var decoded := DecodePart(parts[i], parse);
        if decoded.Failure? {
          assert Collect(steps[..i + 1]) == Failure(decoded.error);
          CollectFailurePrefix(steps, i + 1);
          return Failure(decoded.error);
        }
        assert steps[i] == Success(ToJson(decoded.value));
        out := out + [ToJson(decoded.value)];
        i := i + 1;
      }
      assert steps[..i] == steps;
      r := Success(out);
    }

    /** Stores the XML value list as given, without flattening or deletion. */
    method SetXmlValue(value: seq<string>)
      modifies this`parts
      ensures parts == value
    {
      parts := value;
    }
  }
}
