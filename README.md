# PERIOD property value (sabre/vobject `Property\ICalendar\Period`)

This project models the PERIOD value type of iCalendar (section 3.3.9 of
RFC 5545, used by the FREEBUSY property of section 3.8.2.6) as the
`Period` property class of sabre/vobject handles it. A PERIOD property
stores an ordered list of raw parts, each `start/end` or `start/duration`,
and converts that list to and from three representations:

- the raw text of a calendar line: the parts separated by a configurable
  delimiter (a comma by default, the multi-value rule of section 3.1.1 of
  RFC 5545);
- the JSON form (jCal): a list of two-element lists, whose date-times are
  rendered as `Y-m-d\TH:i:s` and whose durations (a second half starting
  with `P`) are passed through as they are;
- the XML form (xCal), which is stored as given.

Files:

- `wrappers.dfy` — `Option` and `Result`.
- `strings.dfy` — module `Strings`: the PHP primitives the class is built
  from. `Split` is `explode`, `Join` is `implode`, `SplitFirst` is
  `explode` with a limit of two, and `StripSeparators` is the `strtr` call
  that deletes `:` and `-`. The module proves the round trips between
  splitting and joining, the piece count, and the facts about deletion.
- `datetimes.dfy` — module `DateTimes`: a date-time as six fields, the
  zero-padded `Y-m-d\TH:i:s` rendering (`Format`), and the compact form
  `YYYYMMDDThhmmss` of section 3.3.5 of RFC 5545 (`Compact`).
- `period.dfy` — module `ICalendarPeriod`: decoding one stored part into a
  `Tail` that is `Duration(text)` or `End(date-time)`, the JSON value as a
  first-failure collection over the parts, the flattening of JSON entries,
  the two JSON round trips, and the class `Period`. Its fields are
  `delimiter` and `parts`. Its methods are the three setters, the two
  getters and `GetValueType`.

The date-time parser (`DateTimeParser::parseDateTime`) is not part of this
model. Every operation that parses takes it as a parameter
`parse: string -> Option<DateTime>`. The JSON round-trip lemmas state
what they need of it: it must read back the compact form of a date-time.

Behaviour of the code worth noting:

- `setJsonValue` joins an entry of ANY length with `/`. It does not reject
  entries without exactly two elements, and no error exists on that path.
- `setXmlValue` stores its input as given. The `:`/`-` deletion and the
  `/` joining of `setJsonValue` are not applied.
- `getJsonValue` parses the start before it looks at the second half. It
  has no error of its own for a part without `/`: the second half is then
  null, which is not a duration, so the parser is called on it as an end
  (line 115). The model hands the parser the empty text in its place
  (`DecodeNoSlash`); such a part decodes only if the parser accepts it.
- The raw round trip `Split(Join(parts)) == parts` needs more than "no
  part contains the delimiter" when the delimiter is longer than one
  character. `SplitJoin` states the exact condition (`Recoverable`): every
  part but the last is `Separable`, and the last does not contain the
  delimiter. `SplitJoinCounterexample` shows that `["a", "x"]` joined with
  `"aa"` splits back into `["", "ax"]`.

## Model

| member | source | states |
|---|---|---|
| `ICalendarPeriod.Period.constructor` | lib/Property/ICalendar/Period.php:28 | a new property has the delimiter `,` and the given parts |
| `ICalendarPeriod.Period.SetRawMimeDirValue` | lib/Property/ICalendar/Period.php:39-43 | needs a non-empty delimiter; stores the `explode` pieces of the text; joining them gives the text back; there is one more piece than delimiters consumed; no piece contains the delimiter |
| `ICalendarPeriod.Period.GetRawMimeDirValue` | lib/Property/ICalendar/Period.php:50-54 | returns the parts joined by the delimiter; with a non-empty delimiter, splitting the result restores the parts if and only if they are recoverable |
| `ICalendarPeriod.Period.GetValueType` | lib/Property/ICalendar/Period.php:64-68 | always returns `PERIOD` and changes nothing |
| `ICalendarPeriod.Period.SetJsonValue` | lib/Property/ICalendar/Period.php:78-90 | replaces the parts with exactly one flattened part per entry, in order; no stored part contains `:` or `-` |
| `ICalendarPeriod.Period.GetJsonValue` | lib/Property/ICalendar/Period.php:99-126 | the loop returns exactly the first-failure collection of the decoded parts, as `JsonValue` defines it |
| `ICalendarPeriod.Period.SetXmlValue` | lib/Property/ICalendar/Period.php:136-140 | stores the given list unchanged, with no deletion and no joining |
| `Strings.FindFrom` | lib/Property/ICalendar/Period.php:41 | the index found is an occurrence of the delimiter, and no earlier occurrence exists; none is reported only when none exists |
| `Strings.FindIsLeftmost` | lib/Property/ICalendar/Period.php:41 | any occurrence with no earlier occurrence is the one the scan returns |
| `Strings.FindExtend` | lib/Property/ICalendar/Period.php:41 | appending text after the leftmost occurrence does not move it |
| `Strings.JoinSplit` | lib/Property/ICalendar/Period.php:41-52 | for every text and every non-empty delimiter, `implode` after `explode` returns the text exactly |
| `Strings.SplitCount` | lib/Property/ICalendar/Period.php:41 | `explode` yields the number of delimiter occurrences it consumes plus one |
| `Strings.SplitCountChar` | lib/Property/ICalendar/Period.php:41 | with a one-character delimiter, the number of pieces is the number of its occurrences in the text plus one |
| `Strings.SplitPartsFree` | lib/Property/ICalendar/Period.php:41 | no piece produced by `explode` contains the delimiter |
| `Strings.SplitJoinSufficient` | lib/Property/ICalendar/Period.php:41-52 | `explode` after `implode` restores every recoverable list of parts |
| `Strings.SplitJoinNecessary` | lib/Property/ICalendar/Period.php:41-52 | a list of parts that `explode` after `implode` restores is recoverable: every part but the last is separable, and the last does not contain the delimiter |
| `Strings.SplitJoin` | lib/Property/ICalendar/Period.php:41-52 | `explode` after `implode` restores the parts if and only if they are recoverable |
| `Strings.SeparableChar` | lib/Property/ICalendar/Period.php:41-52 | for a one-character delimiter, a part is separable if and only if it does not contain the delimiter |
| `Strings.SplitSeparable` | lib/Property/ICalendar/Period.php:41 | a separable part splits into itself alone |
| `Strings.SplitJoinCounterexample` | lib/Property/ICalendar/Period.php:41-52 | with the delimiter `aa`, parts that do not contain it can still fail to split back |
| `Strings.SplitFirst` | lib/Property/ICalendar/Period.php:104 | the part is the head, the first `/` and the tail, and the head holds no `/`; without a tail the part holds no `/` at all |
| `Strings.SplitFirstAt` | lib/Property/ICalendar/Period.php:104 | a text `s/t` with no `/` in `s` splits into `s` and `t`, whatever `t` contains |
| `Strings.StripCounts` | lib/Property/ICalendar/Period.php:83 | the deletion removes every `:` and `-` and keeps every other character, `/` included, as often as it occurs |
| `Strings.StripConcat` | lib/Property/ICalendar/Period.php:83 | the deletion works piece by piece, so what remains keeps its order |
| `Strings.StripUnchanged` | lib/Property/ICalendar/Period.php:83 | a text without `:` and `-` is left unchanged |
| `Strings.StripIdempotent` | lib/Property/ICalendar/Period.php:83 | the result holds no `:` or `-`, and deleting again changes nothing |
| `DateTimes.DigitsValue` | lib/Property/ICalendar/Period.php:111 | the decimal digits of a field read back as the field |
| `DateTimes.ZeroPadValue` | lib/Property/ICalendar/Period.php:111 | a zero-padded field reads back as the field and has exactly the padded width when it fits |
| `DateTimes.FormatFields` | lib/Property/ICalendar/Period.php:111 | for a valid date-time, `Y-m-d\TH:i:s` is 19 characters with `-`, `T` and `:` at fixed places, and each field reads back from its place |
| `DateTimes.StripFormat` | lib/Property/ICalendar/Period.php:83 | deleting `-` and `:` from the `Y-m-d\TH:i:s` rendering gives the compact form `YYYYMMDDThhmmss` |
| `DateTimes.CompactPlain` | lib/Property/ICalendar/Period.php:83 | the compact form contains no `/`, `:` or `-` |
| `ICalendarPeriod.DecodeNoSlash` | lib/Property/ICalendar/Period.php:104-119 | a part without `/` is parsed as its start, then the parser is handed the empty text as the end; the start's failure wins, and the part decodes only if both parses succeed |
| `ICalendarPeriod.DecodeDuration` | lib/Property/ICalendar/Period.php:104-113 | for `s/t` with `t` starting with `P`, the result is the parsed start and `t` verbatim, even when `t` holds `/`; only a failed start parse fails it |
| `ICalendarPeriod.DurationNotParsed` | lib/Property/ICalendar/Period.php:109-113 | no parse is attempted on a duration: two parsers that agree on the start decode the part alike |
| `ICalendarPeriod.DecodeEnd` | lib/Property/ICalendar/Period.php:106-119 | for `s/t` with `t` not starting with `P`, both halves are parsed; a start failure wins over an end failure; on success the tail is the parsed end |
| `ICalendarPeriod.CollectSuccess` | lib/Property/ICalendar/Period.php:101-124 | a loop whose body may throw succeeds exactly when every step does, and it keeps every value in order |
| `ICalendarPeriod.CollectFailure` | lib/Property/ICalendar/Period.php:101-124 | a failed loop reports the error of its first failing step |
| `ICalendarPeriod.CollectFailurePrefix` | lib/Property/ICalendar/Period.php:101-124 | once a step fails, later steps do not change the outcome |
| `ICalendarPeriod.JsonValueSuccess` | lib/Property/ICalendar/Period.php:99-126 | the JSON value succeeds if and only if every part decodes; it then has one pair per part, in order, each the rendering of that part |
| `ICalendarPeriod.JsonValueFailure` | lib/Property/ICalendar/Period.php:99-126 | a failing JSON value carries the error of the first part that does not decode; no part is skipped |
| `ICalendarPeriod.FlattenPair` | lib/Property/ICalendar/Period.php:80-88 | a two-element entry becomes both halves without `:` and `-`, joined by a kept `/`; flattening again changes nothing |
| `ICalendarPeriod.FlattenSeparatedCompact` | lib/Property/ICalendar/Period.php:83 | the separated spelling and the compact spelling of the same period flatten to the same part |
| `ICalendarPeriod.PartRoundTrip` | lib/Property/ICalendar/Period.php:83-119 | a canonical part decodes, and flattening its JSON pair gives the part back |
| `ICalendarPeriod.JsonRoundTrip` | lib/Property/ICalendar/Period.php:78-126 | `setJsonValue(getJsonValue())` restores any list of canonical parts |
| `ICalendarPeriod.EntryRoundTrip` | lib/Property/ICalendar/Period.php:83-119 | a well-formed JSON entry, once flattened, decodes back to the same entry |
| `ICalendarPeriod.JsonSetGet` | lib/Property/ICalendar/Period.php:78-126 | `getJsonValue()` after `setJsonValue(v)` returns `v` for well-formed entries |

## Left out

- Date-time parsing: `DateTimeParser::parseDateTime` is not part of this
  model. It is a parameter of every operation that parses. Its time zone
  handling, including the dropped `Z` suffix, is therefore not modelled.
- Date-time rendering: PHP's `DateTime::format` is modelled only for the
  pattern `Y-m-d\TH:i:s` of the source, over six non-negative fields.
  Negative years and time-zone conversion are not modelled.
- Parent `Property` class: `getParts`, `setValue` and `parent::setJsonValue`
  are not part of this model. Each setter is modelled as replacing the
  stored list. The parent's handling of a one-element list is not modelled.
- `ICalendarPeriod.Period.SetXmlValue`: takes a list of strings. XML values
  whose elements are themselves lists are not modelled, because the parent
  setter that would store them is not part of this model.
- PHP notices: a part without `/` (line 104) or with an empty second half
  (line 109) raises notices in PHP, which do not stop the code. The model
  leaves the notices out and keeps what follows them: in both cases the
  parser receives the empty text as the end (PHP's null reads as empty).
- Empty delimiter: `explode` with an empty delimiter is a PHP error, so
  `SetRawMimeDirValue` requires a non-empty delimiter. `implode` with any
  delimiter is modelled.
- Calendar semantics that the code does not perform are not modelled:
  end-after-start checks, duration syntax beyond the first `P`, escaping
  and line unfolding. XML output is not produced by this class.
