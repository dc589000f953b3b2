/**
 * The event list of the calendar script: the text format of the event file
 * (`parseEvents`), the query for one day (`getEventsForDay`), and what one
 * event contributes to a day cell (`addEventToCell`, `getIconForType`).
 */
module Events {
  import opened Strings
  import opened Sequences

  /**
   * One line of the event file. The script's record has the fields `date`,
   * `heure` (time), `titre` (title) and `type` (category).
   */
  datatype Event = Event(date: string, time: string, title: string, category: string)

  // ---------------------------------------------------------------------------
  // parseEvents

  /**
   * The first filter of `parseEvents`: a line is looked at when its trimmed
   * text is not empty and the raw line does not begin with `#`.
   */
  predicate KeepLine(line: string)
    // `line.trim()` is truthy exactly when the line is not all white space
    ensures KeepLine(line) <==> !AllSpaces(line) && !StartsWith(line, '#')
  {
    TrimEmpty(line);
    Trim(line) != "" && !StartsWith(line, '#')
  }

  /** `line.split('|').map(part => part.trim())`. */
  function Fields(line: string): (parts: seq<string>)
    ensures |parts| == CountChar(line, '|') + 1
    ensures forall i :: 0 <= i < |parts| ==> parts[i] == Trim(Split(line, '|')[i])
  {
    var raw := Split(line, '|');
    seq(|raw|, i requires 0 <= i < |raw| => Trim(raw[i]))
  }

  /**
   * The `map` step of `parseEvents`: a record from the first four fields, or
   * nothing (`null`) when the line has fewer than four, that is, fewer than
   * three `|` separators.
   */
  function ParseLine(line: string): (r: Option<Event>)
    ensures r.Some? <==> CountChar(line, '|') >= 3
  {
    var parts := Fields(line);
    if |parts| >= 4 then Some(Event(parts[0], parts[1], parts[2], parts[3])) else None
  }

  /** The filter, map and filter chain of `parseEvents`, over the lines of the text. */
  function ParseLines(lines: seq<string>): (r: seq<Event>)
    ensures |r| <= |lines|
  {
    NonNull(MapSeq(Filter(lines, KeepLine), ParseLine))
  }

  /** `parseEvents(text)`. */
  function ParseEvents(text: string): (r: seq<Event>)
    ensures |r| <= CountChar(text, '\n') + 1
  {
    ParseLines(Split(text, '\n'))
  }

  /** A line that yields a record. */
  predicate IsRecordLine(line: string)
    ensures IsRecordLine(line) ==> !StartsWith(line, '#') && CountChar(line, '|') >= 3
  {
    KeepLine(line) && ParseLine(line).Some?
  }

  /**
   * The blank-line test is subsumed by the field count: a line yields a record
   * exactly when it does not begin with `#` and holds at least three `|`.
   * A line whose `#` comes after a leading space is therefore not a comment.
   */
  lemma RecordLineRule(line: string)
    ensures IsRecordLine(line) <==> !StartsWith(line, '#') && CountChar(line, '|') >= 3
  {
    if CountChar(line, '|') >= 3 {
      CountCharAbsent(line, '|');
      var i :| 0 <= i < |line| && line[i] == '|';
      TrimEmpty(line);
      assert !IsSpace(line[i]);
    }
  }

  /** The parser reads line by line: the text before a line break and after it parse independently. */
  lemma ParseLinesAppend(a: seq<string>, b: seq<string>)
    ensures ParseLines(a + b) == ParseLines(a) + ParseLines(b)
  {
    FilterAppend(a, b, KeepLine);
    MapAppend(Filter(a, KeepLine), Filter(b, KeepLine), ParseLine);
    NonNullAppend(MapSeq(Filter(a, KeepLine), ParseLine), MapSeq(Filter(b, KeepLine), ParseLine));
  }

  /** One line gives its record when it is a record line, and nothing otherwise. */
  lemma ParseLinesSingle(line: string)
    ensures ParseLines([line]) == if IsRecordLine(line) then [ParseLine(line).value] else []
  {
    assert [line][1..] == [];
    if KeepLine(line) {
      assert Filter([line], KeepLine) == [line];
      assert MapSeq([line], ParseLine) == [ParseLine(line)];
      assert [ParseLine(line)][1..] == [];
    } else {
      assert Filter([line], KeepLine) == [];
    }
  }

  /** A line of four `|`-free fields splits into exactly those fields, trimmed. */
  lemma ParseFourFields(a: string, b: string, c: string, d: string)
    requires '|' !in a && '|' !in b && '|' !in c && '|' !in d
    ensures CountChar(a + "|" + b + "|" + c + "|" + d, '|') == 3
    ensures ParseLine(a + "|" + b + "|" + c + "|" + d) == Some(Event(Trim(a), Trim(b), Trim(c), Trim(d)))
  {
    var line := a + "|" + b + "|" + c + "|" + d;
    assert line == a + ['|'] + b + ['|'] + c + ['|'] + d;
    SplitFour(a, b, c, d, '|');
  }

  /** Such a line is a record line unless its first character is `#`. */
  lemma FourFieldRecord(a: string, b: string, c: string, d: string)
    requires '|' !in a && '|' !in b && '|' !in c && '|' !in d
    requires !StartsWith(a, '#')
    ensures IsRecordLine(a + "|" + b + "|" + c + "|" + d)
    ensures ParseLine(a + "|" + b + "|" + c + "|" + d) == Some(Event(Trim(a), Trim(b), Trim(c), Trim(d)))
  {
    var line := a + "|" + b + "|" + c + "|" + d;
    ParseFourFields(a, b, c, d);
    RecordLineRule(line);
    assert !StartsWith(line, '#') by {
      if |a| == 0 {
        assert line[0] == '|';
      } else {
        assert line[0] == a[0];
      }
    }
  }

  /** A line of four `|`-free fields that trim to the fields of `e` is a record line for `e`. */
  lemma RecordOfFields(a: string, b: string, c: string, d: string, e: Event)
    requires '|' !in a && '|' !in b && '|' !in c && '|' !in d
    requires !StartsWith(a, '#')
    requires TrimsTo(a, e.date) && TrimsTo(b, e.time) && TrimsTo(c, e.title) && TrimsTo(d, e.category)
    ensures IsRecordLine(a + "|" + b + "|" + c + "|" + d)
    ensures ParseLine(a + "|" + b + "|" + c + "|" + d) == Some(e)
  {
    TrimsToTrim(a, e.date);
    TrimsToTrim(b, e.time);
    TrimsToTrim(c, e.title);
    TrimsToTrim(d, e.category);
    FourFieldRecord(a, b, c, d);
  }

  /** Two record lines give their two records, in order. */
  lemma ParseTwoLines(l1: string, l2: string)
    requires IsRecordLine(l1) && IsRecordLine(l2)
    ensures ParseLines([l1, l2]) == [ParseLine(l1).value, ParseLine(l2).value]
  {
    ParseLinesAppend([l1], [l2]);
    ParseLinesSingle(l1);
    ParseLinesSingle(l2);
    assert [l1] + [l2] == [l1, l2];
  }

  /** The positions of the record lines, in increasing order. */
  function RecordIndices(lines: seq<string>): seq<nat>
  {
    Indices(lines, IsRecordLine)
  }

  /** The record lines are listed in increasing order, each once, and none is missed. */
  lemma RecordIndicesSpec(lines: seq<string>)
    ensures forall k, l :: 0 <= k < l < |RecordIndices(lines)| ==> RecordIndices(lines)[k] < RecordIndices(lines)[l]
    ensures forall i :: 0 <= i < |lines| && IsRecordLine(lines[i]) ==> i in RecordIndices(lines)
    ensures forall k :: 0 <= k < |RecordIndices(lines)| ==>
      RecordIndices(lines)[k] < |lines| && IsRecordLine(lines[RecordIndices(lines)[k]])
  {
    IndicesSpec(lines, IsRecordLine);
  }

  /**
   * `parseEvents` emits exactly one record per record line, in the order of
   * the lines: record `k` is the parse of the `k`-th record line.
   */
  lemma ParseLinesExactly(lines: seq<string>)
    ensures |ParseLines(lines)| == |RecordIndices(lines)|
    ensures forall k :: 0 <= k < |RecordIndices(lines)| ==>
      RecordIndices(lines)[k] < |lines| && ParseLine(lines[RecordIndices(lines)[k]]).Some? &&
      ParseLines(lines)[k] == ParseLine(lines[RecordIndices(lines)[k]]).value
  {
    forall x
      ensures IsRecordLine(x) == (KeepLine(x) && ParseLine(x).Some?)
    {
    }
    FilterMapIndices(lines, KeepLine, ParseLine, IsRecordLine);
  }

  /** Fields past the fourth do not change the record. */
  lemma ExtraFieldsIgnored(line: string, rest: string)
    requires ParseLine(line).Some?
    ensures ParseLine(line + "|" + rest) == ParseLine(line)
  {
    SplitAt(line, rest, '|');
    assert line + "|" + rest == line + ['|'] + rest;
  }

  /** A `#` after a leading space does not make a comment: such a line is data once it has three separators. */
  lemma IndentedHashIsData(line: string)
    requires StartsWith(line, ' ') && CountChar(line, '|') >= 3
    ensures IsRecordLine(line)
    ensures ParseLines([line]) == [ParseLine(line).value]
  {
    RecordLineRule(line);
    ParseLinesSingle(line);
  }

  /** The line ` #a|b|c|d` gives the record whose date is `#a`. */
  lemma IndentedHashExample()
    ensures ParseLines([" #a|b|c|d"]) == [Event("#a", "b", "c", "d")]
  {
    IndentedHashSpelling();
    IndentedHashFields();
    TrimUnique(" ", "#a", "");
    TrimsToTrim("b", "b");
    TrimsToTrim("c", "c");
    TrimsToTrim("d", "d");
    FourFieldRecord(" #a", "b", "c", "d");
    ParseLinesSingle(" #a|b|c|d");
  }

  lemma IndentedHashFields()
    ensures '|' !in " #a" && '|' !in "b" && '|' !in "c" && '|' !in "d"
    ensures !StartsWith(" #a", '#')
    ensures AllSpaces(" ") && IsTrimmed("#a") && AllSpaces("")
    ensures TrimsTo("b", "b") && TrimsTo("c", "c") && TrimsTo("d", "d")
  {
  }

  // Literal concatenations spelled out for the solver.
  lemma IndentedHashSpelling()
    ensures " " + "#a" + "" == " #a"
    ensures " #a" + "|" + "b" + "|" + "c" + "|" + "d" == " #a|b|c|d"
  {
  }

  // The file format, written out: the inverse of the parser on well-formed records.

  /** The line `date|time|title|category`. */
  function Format(e: Event): string
  {
    e.date + "|" + e.time + "|" + e.title + "|" + e.category
  }

  predicate CleanField(f: string)
  {
    IsTrimmed(f) && '|' !in f && '\n' !in f
  }

  /** A record the file format can carry: trimmed fields free of `|` and line breaks, a date not starting with `#`. */
  predicate WellFormed(e: Event)
  {
    CleanField(e.date) && CleanField(e.time) && CleanField(e.title) && CleanField(e.category)
    && !StartsWith(e.date, '#')
  }

  /** A formatted record parses back to itself. */
  lemma FormatRoundTrip(e: Event)
    requires WellFormed(e)
    ensures IsRecordLine(Format(e))
    ensures ParseLine(Format(e)) == Some(e)
  {
    RecordOfFields(e.date, e.time, e.title, e.category, e);
  }

  /** The event file for a list of records, one line each. */
  function Serialize(events: seq<Event>): string
  {
    Join(MapSeq(events, Format), '\n')
  }

  /** Writing well-formed records to a file and parsing it gives back the same records in the same order. */
  lemma SerializeRoundTrip(events: seq<Event>)
    requires forall i :: 0 <= i < |events| ==> WellFormed(events[i])
    ensures ParseEvents(Serialize(events)) == events
  {
    var lines := MapSeq(events, Format);
    if |events| == 0 {
      assert Serialize(events) == "";
      assert Split("", '\n') == [""];
      ParseLinesSingle("");
      TrimEmpty("");
    } else {
      forall i | 0 <= i < |lines|
        ensures '\n' !in lines[i]
      {
        assert lines[i] == Format(events[i]);
        FormatHasNoLineBreak(events[i]);
      }
      SplitJoin(lines, '\n');
      ParseRecordLines(events);
    }
  }

  lemma FormatHasNoLineBreak(e: Event)
    requires WellFormed(e)
    ensures '\n' !in Format(e)
  {
    assert Format(e) == e.date + ['|'] + e.time + ['|'] + e.title + ['|'] + e.category;
  }

  lemma {:induction false} ParseRecordLines(events: seq<Event>)
    requires forall i :: 0 <= i < |events| ==> WellFormed(events[i])
    ensures ParseLines(MapSeq(events, Format)) == events
    decreases |events|
  {
    if |events| > 0 {
      var n := |events| - 1;
      var front := events[..n];
      var lines := MapSeq(events, Format);
      assert events == front + [events[n]];
      MapAppend(front, [events[n]], Format);
      assert MapSeq([events[n]], Format) == [Format(events[n])];
      ParseRecordLines(front);
      ParseLinesAppend(MapSeq(front, Format), [Format(events[n])]);
      FormatRoundTrip(events[n]);
      ParseLinesSingle(Format(events[n]));
    }
  }

  // ---------------------------------------------------------------------------
  // getEventsForDay

  /** The key `year-MM-DD` for a 0-based month, as `getEventsForDay` builds it. */
  function DateKey(year: int, month: int, day: int): (k: string)
    // the year's notation comes first, then a dash and at least two digits of month
    ensures |k| >= |IntToString(year)| + 6
    ensures k[..|IntToString(year)|] == IntToString(year) && k[|IntToString(year)|] == '-'
  {
    IntToString(year) + "-" + Pad2(month + 1) + "-" + Pad2(day)
  }

  /** `getEventsForDay(year, month, day)` over the list `events`. */
  function EventsForDay(events: seq<Event>, year: int, month: int, day: int): (r: seq<Event>)
    // exactly the events carrying the day's key, each with all its duplicates
    ensures forall e :: multiset(r)[e] == if e.date == DateKey(year, month, day) then multiset(events)[e] else 0
    ensures forall i :: 0 <= i < |r| ==> r[i].date == DateKey(year, month, day)
  {
    var key := DateKey(year, month, day);
    Filter(events, (e: Event) => e.date == key)
  }

  /** The query keeps the order of the list. */
  lemma EventsForDayAppend(a: seq<Event>, b: seq<Event>, year: int, month: int, day: int)
    ensures EventsForDay(a + b, year, month, day) == EventsForDay(a, year, month, day) + EventsForDay(b, year, month, day)
  {
    var key := DateKey(year, month, day);
    FilterAppend(a, b, (e: Event) => e.date == key);
  }

  /** A key names one date: no event is found on two different days. */
  lemma DateKeyInjective(y1: int, m1: int, d1: int, y2: int, m2: int, d2: int)
    requires 0 <= m1 < 12 && 0 <= m2 < 12 && 0 <= d1 <= 99 && 0 <= d2 <= 99
    requires DateKey(y1, m1, d1) == DateKey(y2, m2, d2)
    ensures y1 == y2 && m1 == m2 && d1 == d2
  {
    DateKeyParts(y1, m1, d1);
    DateKeyParts(y2, m2, d2);
    SameLengthSuffix(IntToString(y1), DateKeyTail(m1, d1), IntToString(y2), DateKeyTail(m2, d2));
    IntToStringInjective(y1, y2);
    TailDetermines(m1, d1, m2, d2);
  }

  /** Two concatenations with equally long second parts agree part by part. */
  lemma SameLengthSuffix(a: string, b: string, c: string, d: string)
    requires a + b == c + d && |b| == |d|
    ensures a == c && b == d
  {
    assert a == (a + b)[..|a|];
    assert c == (c + d)[..|c|];
    assert b == (a + b)[|a|..];
    assert d == (c + d)[|c|..];
  }

  /** The `-MM-DD` part names the month and the day. */
  lemma TailDetermines(m1: int, d1: int, m2: int, d2: int)
    requires 0 <= m1 < 12 && 0 <= m2 < 12 && 0 <= d1 <= 99 && 0 <= d2 <= 99
    requires DateKeyTail(m1, d1) == DateKeyTail(m2, d2)
    ensures m1 == m2 && d1 == d2
  {
    var t1, t2 := DateKeyTail(m1, d1), DateKeyTail(m2, d2);
    assert t1[1] == t2[1] && t1[2] == t2[2] && t1[4] == t2[4] && t1[5] == t2[5];
    DigitsDetermine(m1 + 1, m2 + 1);
    DigitsDetermine(d1, d2);
  }

  /** The six characters after the year: `-MM-DD`. */
  function DateKeyTail(month: int, day: int): string
    requires 0 <= month < 12 && 0 <= day <= 99
  {
    ['-', DigitChar((month + 1) / 10), DigitChar((month + 1) % 10), '-', DigitChar(day / 10), DigitChar(day % 10)]
  }

  lemma DateKeyParts(year: int, month: int, day: int)
    requires 0 <= month < 12 && 0 <= day <= 99
    ensures DateKey(year, month, day) == IntToString(year) + DateKeyTail(month, day)
  {
    Pad2Digits(month + 1);
    Pad2Digits(day);
    Regroup(IntToString(year), Pad2(month + 1), Pad2(day));
    TailOfDigits(DigitChar((month + 1) / 10), DigitChar((month + 1) % 10), DigitChar(day / 10), DigitChar(day % 10));
  }

  // The two steps below only regroup literal concatenations for the solver.
  lemma Regroup(y: string, p: string, q: string)
    ensures y + "-" + p + "-" + q == y + ("-" + p + "-" + q)
  {
  }

  lemma TailOfDigits(a: char, b: char, c: char, d: char)
    ensures "-" + [a, b] + "-" + [c, d] == ['-', a, b, '-', c, d]
  {
  }

  lemma DigitsDetermine(a: int, b: int)
    requires 0 <= a <= 99 && 0 <= b <= 99
    requires DigitChar(a / 10) == DigitChar(b / 10) && DigitChar(a % 10) == DigitChar(b % 10)
    ensures a == b
  {
    assert DigitValue(DigitChar(a / 10)) == a / 10 && DigitValue(DigitChar(b / 10)) == b / 10;
    assert DigitValue(DigitChar(a % 10)) == a % 10 && DigitValue(DigitChar(b % 10)) == b % 10;
  }

  // ---------------------------------------------------------------------------
  // getIconForType and addEventToCell

  const IconsPath: string := "assets/"

  /** The categories that have an icon. */
  predicate HasIcon(category: string)
  {
    category == "jeux" || category == "magic" || category == "jdr" || category == "special"
  }

  /**
   * `getIconForType`, reading only the four entries of the table: the small
   * icon of a known category, and the empty string for any other.
   */
  function IconForType(category: string): (r: string)
    ensures r != "" <==> HasIcon(category)
    ensures HasIcon(category) ==> r == IconsPath + "icon-" + category + "-small.png"
  {
    IconFileNames();
    if category == "jeux" then IconsPath + "icon-jeux-small.png"
    else if category == "magic" then IconsPath + "icon-magic-small.png"
    else if category == "jdr" then IconsPath + "icon-jdr-small.png"
    else if category == "special" then IconsPath + "icon-special-small.png"
    else ""
  }

  /** Each icon's file is named after its category. */
  lemma IconFileNames()
    ensures IconsPath + "icon-jeux-small.png" == IconsPath + "icon-" + "jeux" + "-small.png"
    ensures IconsPath + "icon-magic-small.png" == IconsPath + "icon-" + "magic" + "-small.png"
    ensures IconsPath + "icon-jdr-small.png" == IconsPath + "icon-" + "jdr" + "-small.png"
    ensures IconsPath + "icon-special-small.png" == IconsPath + "icon-" + "special" + "-small.png"
  {
    assert "icon-" + "jeux" + "-small.png" == "icon-jeux-small.png";
    assert "icon-" + "magic" + "-small.png" == "icon-magic-small.png";
    assert "icon-" + "jdr" + "-small.png" == "icon-jdr-small.png";
    assert "icon-" + "special" + "-small.png" == "icon-special-small.png";
  }

  /** Different categories with an icon get different icons. */
  lemma IconForTypeInjective(a: string, b: string)
    requires HasIcon(a) && HasIcon(b) && IconForType(a) == IconForType(b)
    ensures a == b
  {
    var pa, pb := IconForType(a), IconForType(b);
    assert pa[|IconsPath| + 5..|pa| - 10] == a;
    assert pb[|IconsPath| + 5..|pb| - 10] == b;
  }

  /**
   * A value as JavaScript sees the result of `icons[type]`: one of the table's
   * own strings, a member inherited from `Object.prototype` (a function, or the
   * prototype object itself for `__proto__`), or `undefined`.
   */
  datatype LookupValue = Own(path: string) | Inherited(name: string) | Undefined

  /** The property names every object literal inherits from `Object.prototype`. */
  predicate IsInheritedName(name: string)
  {
    name in {"constructor", "hasOwnProperty", "isPrototypeOf", "propertyIsEnumerable",
             "toLocaleString", "toString", "valueOf", "__proto__", "__defineGetter__",
             "__defineSetter__", "__lookupGetter__", "__lookupSetter__"}
  }

  /** JavaScript truthiness of a lookup result. */
  predicate Truthy(v: LookupValue)
  {
    match v
    case Own(path) => path != ""
    case Inherited(_) => true
    case Undefined => false
  }

  /** `icons[type] || ''` as written: the lookup falls through to `Object.prototype`. */
  function IconForTypeAsWritten(category: string): (r: LookupValue)
    ensures Truthy(r) <==> HasIcon(category) || IsInheritedName(category)
    ensures !Truthy(r) ==> r == Own("")
    ensures HasIcon(category) ==> r == Own(IconForType(category))
    ensures IsInheritedName(category) ==> r == Inherited(category)
  {
    var v :=
      if HasIcon(category) then Own(IconForType(category))
      else if IsInheritedName(category) then Inherited(category)
      else Undefined;
    if Truthy(v) then v else Own("")
  }

  /** Outside the inherited names the written lookup is the four-entry table. */
  lemma IconAsWrittenAgrees(category: string)
    requires !IsInheritedName(category)
    ensures IconForTypeAsWritten(category) == Own(IconForType(category))
  {
  }

  /**
   * The category `constructor` gets a truthy result that is not a path, so
   * `addEventToCell` emits an image whose source is the text of a function,
   * where the table promises no icon at all.
   */
  lemma ConstructorGetsAnImage()
    ensures IconForType("constructor") == ""
    ensures IconForTypeAsWritten("constructor") == Inherited("constructor")
    ensures Truthy(IconForTypeAsWritten("constructor"))
  {
  }

  /** The image of an event entry: its source and its alternative text. */
  datatype Icon = Icon(src: string, alt: string)

  /** The rendering of one event: CSS class, optional icon, and the label. */
  datatype Entry = Entry(cssClass: string, icon: Option<Icon>, text: string)

  /** The label rule: `time - title` for a timed event, the title alone otherwise. */
  function Label(e: Event): (r: string)
    ensures |r| >= |e.title| && r[|r| - |e.title|..] == e.title
    ensures e.time == "" ==> r == e.title
    ensures e.time != "" ==> |r| == |e.time| + 3 + |e.title| && r[..|e.time| + 3] == e.time + " - "
  {
    if e.time != "" then e.time + " - " + e.title else e.title
  }

  /** `addEventToCell`: the class `event <type>`, an icon exactly when the category has one, the label. */
  function RenderEvent(e: Event): (r: Entry)
    ensures r.icon.Some? <==> HasIcon(e.category)
    ensures r.icon.Some? ==> r.icon.value == Icon(IconForType(e.category), e.category)
    ensures r.text == Label(e) && r.cssClass == "event " + e.category
  {
    var src := IconForType(e.category);
    Entry("event " + e.category, if src != "" then Some(Icon(src, e.category)) else None, Label(e))
  }

  /**
   * The image `addEventToCell` emits as written: the lookup as written when it
   * is truthy, nothing otherwise. `RenderEvent` reads the four-entry table instead.
   */
  function ImageAsWritten(e: Event): (r: Option<LookupValue>)
    ensures r.Some? <==> HasIcon(e.category) || IsInheritedName(e.category)
    ensures r.Some? ==> Truthy(r.value)
  {
    var v := IconForTypeAsWritten(e.category);
    if Truthy(v) then Some(v) else None
  }

  /** Outside the inherited names, the rendered entry has the image the script emits, with the same source. */
  lemma RenderEventAsWrittenAgrees(e: Event)
    requires !IsInheritedName(e.category)
    ensures RenderEvent(e).icon.Some? <==> ImageAsWritten(e).Some?
    ensures RenderEvent(e).icon.Some? ==> ImageAsWritten(e).value == Own(RenderEvent(e).icon.value.src)
  {
  }

  /** For a category named after an inherited property, the script emits an image and the rendered entry has none. */
  lemma InheritedCategoryGetsAnImage(e: Event)
    requires IsInheritedName(e.category)
    ensures RenderEvent(e).icon == None
    ensures ImageAsWritten(e) == Some(Inherited(e.category))
  {
  }

  // ---------------------------------------------------------------------------
  // The worked example of the file format

  /** Two records on the same day are both found, in file order, the blank time trimmed to nothing. */
  lemma TwoEventsOneDay()
    ensures ParseEvents("2024-03-15|18:00|Game Night|jeux\n2024-03-15|  |Open Table|jdr")
      == [Event("2024-03-15", "18:00", "Game Night", "jeux"), Event("2024-03-15", "", "Open Table", "jdr")]
  {
    var l1 := "2024-03-15|18:00|Game Night|jeux";
    var l2 := "2024-03-15|  |Open Table|jdr";
    ExampleTextSpelling();
    assert '\n' !in l1 && '\n' !in l2;
    FirstLineOfExample();
    SecondLineOfExample();
    SplitFree(l1, '\n');
    SplitFree(l2, '\n');
    SplitAt(l1, l2, '\n');
    ParseTwoLines(l1, l2);
  }

  lemma FirstLineOfExample()
    ensures IsRecordLine("2024-03-15|18:00|Game Night|jeux")
    ensures ParseLine("2024-03-15|18:00|Game Night|jeux") == Some(Event("2024-03-15", "18:00", "Game Night", "jeux"))
  {
    FirstLineSpelling();
    FirstLineFields();
    RecordOfFields("2024-03-15", "18:00", "Game Night", "jeux", Event("2024-03-15", "18:00", "Game Night", "jeux"));
  }

  /** The blank time of the second line trims to the empty string, which marks an untimed event. */
  lemma SecondLineOfExample()
    ensures IsRecordLine("2024-03-15|  |Open Table|jdr")
    ensures ParseLine("2024-03-15|  |Open Table|jdr") == Some(Event("2024-03-15", "", "Open Table", "jdr"))
  {
    SecondLineSpelling();
    SecondLineFields();
    RecordOfFields("2024-03-15", "  ", "Open Table", "jdr", Event("2024-03-15", "", "Open Table", "jdr"));
  }

  /** The first line of the example is its four fields joined by `|` (a literal concatenation spelled out for the solver). */
  lemma FirstLineSpelling()
    ensures "2024-03-15" + "|" + "18:00" + "|" + "Game Night" + "|" + "jeux" == "2024-03-15|18:00|Game Night|jeux"
  {
  }

  lemma FirstLineFields()
    ensures '|' !in "2024-03-15" && '|' !in "18:00" && '|' !in "Game Night" && '|' !in "jeux"
    ensures !StartsWith("2024-03-15", '#')
    ensures TrimsTo("2024-03-15", "2024-03-15") && TrimsTo("18:00", "18:00")
    ensures TrimsTo("Game Night", "Game Night") && TrimsTo("jeux", "jeux")
  {
  }

  /** The second line of the example, spelled out for the solver: its time field is white space only. */
  lemma SecondLineSpelling()
    ensures "2024-03-15" + "|" + "  " + "|" + "Open Table" + "|" + "jdr" == "2024-03-15|  |Open Table|jdr"
  {
  }

  lemma SecondLineFields()
    ensures '|' !in "2024-03-15" && '|' !in "  " && '|' !in "Open Table" && '|' !in "jdr"
    ensures !StartsWith("2024-03-15", '#')
    ensures TrimsTo("2024-03-15", "2024-03-15") && TrimsTo("  ", "")
    ensures TrimsTo("Open Table", "Open Table") && TrimsTo("jdr", "jdr")
  {
  }

  // The example file as one literal, spelled out for the solver.
  lemma ExampleTextSpelling()
    ensures "2024-03-15|18:00|Game Night|jeux" + ['\n'] + "2024-03-15|  |Open Table|jdr"
      == "2024-03-15|18:00|Game Night|jeux\n2024-03-15|  |Open Table|jdr"
  {
  }

  /** Both records of the example fall on 15 March 2024 (month index 2), and none on the 16th. */
  lemma ExampleDayQuery()
    ensures EventsForDay([Event("2024-03-15", "18:00", "Game Night", "jeux"), Event("2024-03-15", "", "Open Table", "jdr")], 2024, 2, 15)
      == [Event("2024-03-15", "18:00", "Game Night", "jeux"), Event("2024-03-15", "", "Open Table", "jdr")]
    ensures EventsForDay([Event("2024-03-15", "18:00", "Game Night", "jeux"), Event("2024-03-15", "", "Open Table", "jdr")], 2024, 2, 16) == []
  {
    var e1 := Event("2024-03-15", "18:00", "Game Night", "jeux");
    var e2 := Event("2024-03-15", "", "Open Table", "jdr");
    DateKeyOfTheFifteenth();
    DateKeyOfTheSixteenth();
    var key := DateKey(2024, 2, 15);
    FilterKeepsAll([e1, e2], (e: Event) => e.date == key);
    var other := DateKey(2024, 2, 16);
    FilterDropsAll([e1, e2], (e: Event) => e.date == other);
  }

  /** 15 March 2024 is written `2024-03-15`: the month index is shifted and both parts padded. */
  lemma DateKeyOfTheFifteenth()
    ensures DateKey(2024, 2, 15) == "2024-03-15"
  {
    DateKeyParts(2024, 2, 15);
    YearDigits();
  }

  lemma DateKeyOfTheSixteenth()
    ensures DateKey(2024, 2, 16) == "2024-03-16"
  {
    DateKeyParts(2024, 2, 16);
    YearDigits();
  }

  lemma YearDigits()
    ensures IntToString(2024) == "2024"
  {
    assert NatToString(2024) == NatToString(202) + [DigitChar(4)];
    assert NatToString(202) == NatToString(20) + [DigitChar(2)];
    assert NatToString(20) == NatToString(2) + [DigitChar(0)];
  }
}
