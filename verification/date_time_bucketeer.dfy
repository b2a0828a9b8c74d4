/**
  The `dateTime` aggregate (`BucketeerDateTime`): every timestamp goes into
  the bucket named by the calendar fields chosen at start, each written in
  decimal and joined with `-`. The conversion from calendar seconds to local
  civil fields (`localtime`) depends on the host's time zone and is a
  parameter of the model.
 */
module DateTimeBucketeer {
  import opened Optional
  import opened Bucketeer
  import opened Batch
  import opened KeyText

  datatype Field = Year | Month | DayOfYear | DayOfMonth | DayOfWeek | Hour | Minute | Second

  /** The order in which enabled fields appear in a key. */
  const FieldOrder: seq<Field> := [Year, Month, DayOfYear, DayOfMonth, DayOfWeek, Hour, Minute, Second]

  /** The start argument that enables a field. */
  function FieldName(f: Field): string
  {
    match f
    case Year => "year"
    case Month => "month"
    case DayOfYear => "day-of-year"
    case DayOfMonth => "day-of-month"
    case DayOfWeek => "day-of-week"
    case Hour => "hour"
    case Minute => "minute"
    case Second => "second"
  }

  /** The field an argument names, if it names one. */
  function FieldNamed(arg: string): (r: Option<Field>)
    ensures forall f :: FieldName(f) == arg <==> r == Some(f)
  {
    if arg == "year" then Some(Year)
    else if arg == "month" then Some(Month)
    else if arg == "day-of-year" then Some(DayOfYear)
    else if arg == "day-of-month" then Some(DayOfMonth)
    else if arg == "day-of-week" then Some(DayOfWeek)
    else if arg == "hour" then Some(Hour)
    else if arg == "minute" then Some(Minute)
    else if arg == "second" then Some(Second)
    else None
  }

  /** The argument loop of `start`: each recognised name enables its field; others are ignored. */
  function EnableNamed(enabled: set<Field>, args: seq<string>): (r: set<Field>)
    ensures forall f :: f in r <==> f in enabled || FieldName(f) in args
    decreases |args|
  {
    if |args| == 0 then enabled
    else
      var enabled' := match FieldNamed(args[0]) case Some(f) => enabled + {f} case None => enabled;
      var r := EnableNamed(enabled', args[1..]);
      assert forall f :: FieldName(f) in args <==> FieldName(f) == args[0] || FieldName(f) in args[1..];
      r
  }

  /**
    `start`: with no arguments exactly year and month are enabled; otherwise
    exactly the fields some argument names, so a list of unknown names
    enables nothing.
   */
  function Start(args: seq<string>): (enabled: set<Field>)
    ensures |args| == 0 ==> enabled == {Year, Month}
    ensures |args| > 0 ==> forall f :: f in enabled <==> FieldName(f) in args
  {
    if |args| == 0 then {Year, Month} else EnableNamed({}, args)
  }

  /**
    The fields of a `struct tm`: years since 1900, months since January,
    day of the year from 0, day of the month from 1, day of the week from 0
    (Sunday), hours, minutes, seconds.
   */
  datatype Tm = Tm(tmYear: int, tmMon: int, tmYday: int, tmMday: int, tmWday: int, tmHour: int, tmMin: int, tmSec: int)

  /** The number a field contributes to a key: the calendar year and a month counted from 1. */
  function FieldValue(tm: Tm, f: Field): (v: int)
    ensures f == Year ==> (v >= 0 <==> tm.tmYear >= -1900)
    ensures f == Month ==> (1 <= v <= 12 <==> 0 <= tm.tmMon <= 11)
  {
    match f
    case Year => tm.tmYear + 1900
    case Month => tm.tmMon + 1
    case DayOfYear => tm.tmYday
    case DayOfMonth => tm.tmMday
    case DayOfWeek => tm.tmWday
    case Hour => tm.tmHour
    case Minute => tm.tmMin
    case Second => tm.tmSec
  }

  /** The values of the enabled fields among `fields`, in their order. */
  function EnabledValues(enabled: set<Field>, tm: Tm, fields: seq<Field>): seq<int>
  {
    if |fields| == 0 then []
    else
      var last := fields[|fields| - 1];
      EnabledValues(enabled, tm, fields[..|fields| - 1]) + (if last in enabled then [FieldValue(tm, last)] else [])
  }

  function Renders(ns: seq<int>): (r: seq<string>)
    ensures |r| == |ns|
    ensures forall i | 0 <= i < |ns| :: r[i] == Decimal(ns[i])
  {
    if |ns| == 0 then [] else Renders(ns[..|ns| - 1]) + [Decimal(ns[|ns| - 1])]
  }

  /** A key: the enabled fields in the fixed order, in decimal, separated by single dashes. */
  function BucketKey(enabled: set<Field>, tm: Tm): string
  {
    Join(Renders(EnabledValues(enabled, tm, FieldOrder)))
  }

  /**
    The key composition of `map`: for each field in the fixed order, when it
    is enabled, write the joiner (empty before the first field, `-` after)
    and then the field's value.
   */
  method ComposeKey(enabled: set<Field>, tm: Tm) returns (key: string)
    ensures key == BucketKey(enabled, tm)
  {
    key := "";
    var joiner := "";
    var i := 0;
    while i < |FieldOrder|
      invariant 0 <= i <= |FieldOrder|
      invariant key == Join(Renders(EnabledValues(enabled, tm, FieldOrder[..i])))
      invariant joiner == if EnabledValues(enabled, tm, FieldOrder[..i]) == [] then "" else "-"
    {
      var f := FieldOrder[i];
      ghost var before := EnabledValues(enabled, tm, FieldOrder[..i]);
      EnabledValuesSnoc(enabled, tm, FieldOrder, i);
      if f in enabled {
        var piece := Decimal(FieldValue(tm, f));
        KeySnoc(before, FieldValue(tm, f));
        key := key + joiner + piece;
        joiner := "-";
      } else {
        assert EnabledValues(enabled, tm, FieldOrder[..i + 1]) == before;
      }
      i := i + 1;
    }
    assert FieldOrder[..i] == FieldOrder;
  }

  lemma EnabledValuesSnoc(enabled: set<Field>, tm: Tm, fields: seq<Field>, i: nat)
    requires i < |fields|
    ensures EnabledValues(enabled, tm, fields[..i + 1]) ==
            EnabledValues(enabled, tm, fields[..i]) + (if fields[i] in enabled then [FieldValue(tm, fields[i])] else [])
  {
    assert fields[..i + 1][..i] == fields[..i];
  }

  /** Writing one more field: the joiner, then the value. */
  lemma KeySnoc(ns: seq<int>, n: int)
    ensures Join(Renders(ns + [n])) == Join(Renders(ns)) + (if ns == [] then "" else "-") + Decimal(n)
  {
    assert (ns + [n])[..|ns|] == ns;
    assert Renders(ns + [n]) == Renders(ns) + [Decimal(n)];
    JoinSnoc(Renders(ns), Decimal(n));
  }

  /**
    A key reads back as the enabled fields' values, in the fixed order, when
    at least one field is enabled and none of their values is negative.
   */
  lemma KeyFieldsRoundTrip(enabled: set<Field>, tm: Tm)
    requires enabled != {}
    requires forall f | f in enabled :: FieldValue(tm, f) >= 0
    ensures ParseFields(Split(BucketKey(enabled, tm))) == Some(EnabledValues(enabled, tm, FieldOrder))
  {
    var ns := EnabledValues(enabled, tm, FieldOrder);
    EnabledValuesFacts(enabled, tm, FieldOrder);
    var f :| f in enabled;
    assert f in FieldOrder;
    EnabledValuesNonEmpty(enabled, tm, FieldOrder, f);
    var pieces := Renders(ns);
    forall i | 0 <= i < |pieces|
      ensures '-' !in pieces[i]
    {
      assert pieces[i] == Digits(ns[i]);
    }
    SplitJoin(pieces);
    ParseRendered(ns);
  }

  lemma {:induction false} EnabledValuesFacts(enabled: set<Field>, tm: Tm, fields: seq<Field>)
    requires forall f | f in enabled :: FieldValue(tm, f) >= 0
    ensures forall i | 0 <= i < |EnabledValues(enabled, tm, fields)| :: EnabledValues(enabled, tm, fields)[i] >= 0
    decreases |fields|
  {
    if |fields| > 0 {
      EnabledValuesFacts(enabled, tm, fields[..|fields| - 1]);
    }
  }

  lemma {:induction false} EnabledValuesNonEmpty(enabled: set<Field>, tm: Tm, fields: seq<Field>, f: Field)
    requires f in enabled && f in fields
    ensures EnabledValues(enabled, tm, fields) != []
    decreases |fields|
  {
    var last := fields[|fields| - 1];
    if last != f {
      assert f in fields[..|fields| - 1];
      EnabledValuesNonEmpty(enabled, tm, fields[..|fields| - 1], f);
    }
  }

  lemma {:induction false} ParseRendered(ns: seq<int>)
    requires forall i | 0 <= i < |ns| :: ns[i] >= 0
    ensures ParseFields(Renders(ns)) == Some(ns)
    decreases |ns|
  {
    if |ns| > 0 {
      ParseRendered(ns[1..]);
      ParseRenderedStep(ns);
    }
  }

  /** One step of ParseRendered: the head parses back, given that the tail does. */
  lemma ParseRenderedStep(ns: seq<int>)
    requires |ns| > 0 && ns[0] >= 0
    requires ParseFields(Renders(ns[1..])) == Some(ns[1..])
    ensures ParseFields(Renders(ns)) == Some(ns)
  {
    var tail: seq<nat> := ns[1..];
    RendersHeadTail(ns);
    ParseDigits(ns[0]);
    ParseFieldsCons(Renders(ns), ns[0], tail);
    assert ns == [ns[0]] + tail;
  }

  lemma RendersHeadTail(ns: seq<int>)
    requires |ns| > 0
    ensures Renders(ns)[0] == Decimal(ns[0])
    ensures Renders(ns)[1..] == Renders(ns[1..])
  {
    var r := Renders(ns);
    var tail := Renders(ns[1..]);
    forall j | 0 <= j < |ns| - 1
      ensures r[1..][j] == tail[j]
    {
    }
  }

  /** With every start argument unknown, no field is enabled and every key is empty. */
  lemma UnknownArgumentsGiveEmptyKey(args: seq<string>, tm: Tm)
    requires |args| > 0
    requires forall i | 0 <= i < |args| :: FieldNamed(args[i]) == None
    ensures Start(args) == {}
    ensures BucketKey(Start(args), tm) == ""
  {
    var enabled := Start(args);
    forall f | f in enabled
      ensures false
    {
    }
    NothingEnabled(tm, FieldOrder);
  }

  /** Without start arguments a key is the calendar year, a dash, and the month counted from 1. */
  lemma DefaultKey(tm: Tm)
    ensures BucketKey(Start([]), tm) == Decimal(tm.tmYear + 1900) + "-" + Decimal(tm.tmMon + 1)
  {
    var enabled := Start([]);
    assert enabled == {Year, Month};
    var ns := [tm.tmYear + 1900, tm.tmMon + 1];
    assert EnabledValues(enabled, tm, FieldOrder[..2]) == ns by {
      assert FieldOrder[..2] == [Year, Month];
      assert [Year, Month][..1] == [Year] && [Year][..0] == [];
      assert EnabledValues(enabled, tm, [Year]) == [ns[0]];
    }
    assert EnabledValues(enabled, tm, FieldOrder) == ns by {
      LaterFieldsDisabled(enabled, tm, 2);
    }
    KeyOfTwoFields(enabled, tm, ns[0], ns[1]);
  }

  /** Two enabled fields give the two values joined by one dash. */
  lemma KeyOfTwoFields(enabled: set<Field>, tm: Tm, a: int, b: int)
    requires EnabledValues(enabled, tm, FieldOrder) == [a, b]
    ensures BucketKey(enabled, tm) == Decimal(a) + "-" + Decimal(b)
  {
    var ns := [a, b];
    assert Renders(ns) == [Decimal(a), Decimal(b)] by {
      assert ns[..1] == [a] && ns[..0] == [];
    }
    var pieces := [Decimal(a), Decimal(b)];
    assert pieces[1..] == [Decimal(b)];
    assert Join(pieces) == Decimal(a) + "-" + Decimal(b);
  }

  /** Fields from position `n` on that are not enabled add nothing to a key. */
  lemma {:induction false} LaterFieldsDisabled(enabled: set<Field>, tm: Tm, n: nat)
    requires n <= |FieldOrder|
    requires forall i | n <= i < |FieldOrder| :: FieldOrder[i] !in enabled
    ensures EnabledValues(enabled, tm, FieldOrder) == EnabledValues(enabled, tm, FieldOrder[..n])
    decreases |FieldOrder| - n
  {
    if n < |FieldOrder| {
      LaterFieldsDisabled(enabled, tm, n + 1);
      assert FieldOrder[..n + 1][..n] == FieldOrder[..n];
      assert FieldOrder[..n + 1][n] == FieldOrder[n];
    } else {
      assert FieldOrder[..n] == FieldOrder;
    }
  }

  /** Enabling the day of the week and the hour keys a time by weekday, a dash, and hour. */
  lemma WeekdayHourKey(tm: Tm)
    ensures BucketKey(Start(["day-of-week", "hour"]), tm) == Decimal(tm.tmWday) + "-" + Decimal(tm.tmHour)
  {
    var enabled := Start(["day-of-week", "hour"]);
    WeekdayHourEnabled();
    var ns := [tm.tmWday, tm.tmHour];
    assert EnabledValues(enabled, tm, FieldOrder[..4]) == [] by {
      DisabledFields(enabled, tm, FieldOrder[..4]);
    }
    assert EnabledValues(enabled, tm, FieldOrder[..6]) == ns by {
      assert FieldOrder[..6][..5] == FieldOrder[..5] && FieldOrder[..5][..4] == FieldOrder[..4];
    }
    assert EnabledValues(enabled, tm, FieldOrder) == ns by {
      LaterFieldsDisabled(enabled, tm, 6);
    }
    KeyOfTwoFields(enabled, tm, ns[0], ns[1]);
  }

  lemma WeekdayHourEnabled()
    ensures Start(["day-of-week", "hour"]) == {DayOfWeek, Hour}
  {
    var args := ["day-of-week", "hour"];
    var enabled := Start(args);
    forall f
      ensures f in enabled <==> f in {DayOfWeek, Hour}
    {
      assert FieldName(f) in args <==> FieldName(f) == args[0] || FieldName(f) == args[1];
    }
  }

  /** Fields none of which is enabled add nothing to a key. */
  lemma {:induction false} DisabledFields(enabled: set<Field>, tm: Tm, fields: seq<Field>)
    requires forall i | 0 <= i < |fields| :: fields[i] !in enabled
    ensures EnabledValues(enabled, tm, fields) == []
    decreases |fields|
  {
    if |fields| > 0 {
      DisabledFields(enabled, tm, fields[..|fields| - 1]);
    }
  }

  /** Any Wednesday at 14h is filed under `3-14`, whatever its other fields. */
  lemma WeekdayHourKeyExample(tm: Tm)
    requires tm.tmWday == 3 && tm.tmHour == 14
    ensures BucketKey(Start(["day-of-week", "hour"]), tm) == "3-14"
  {
    WeekdayHourKey(tm);
    assert Digits(14) == "14";
    assert Decimal(3) == "3";
  }

  /** The default configuration files any day of March 2024 under `2024-3`. */
  lemma DefaultKeyExample(tm: Tm)
    requires tm.tmYear == 124 && tm.tmMon == 2
    ensures BucketKey(Start([]), tm) == "2024-3"
  {
    DefaultKey(tm);
    assert Digits(20) == "20";
    assert Digits(202) == "202";
    assert Digits(2024) == "2024";
    assert Decimal(3) == "3";
  }

  lemma {:induction false} NothingEnabled(tm: Tm, fields: seq<Field>)
    ensures EnabledValues({}, tm, fields) == []
    decreases |fields|
  {
    if |fields| > 0 {
      NothingEnabled(tm, fields[..|fields| - 1]);
    }
  }

  /** FILETIME ticks (100 ns) per second. */
  const TicksPerSecond: int := 10000000

  /** FILETIME ticks from 1601-01-01 to the Unix epoch 1970-01-01. */
  const UnixEpochTicks: int := 11644473600000 * 10000

  /** The integer `/` of C++: the quotient truncated toward zero. */
  function TruncDiv(a: int, b: int): (q: int)
    requires b > 0
    ensures a >= 0 ==> q * b <= a < (q + 1) * b
    ensures a < 0 ==> (q - 1) * b < a <= q * b
  {
    if a >= 0 then a / b else -((-a) / b)
  }

  /**
    The conversion as written: the seconds since the Unix epoch, with the
    division truncating toward zero. Before the epoch a timestamp that is
    not a whole second is moved up to the next whole second.
   */
  function UnixSecondsAsWritten(ticks: int): (secs: int)
    ensures ticks >= UnixEpochTicks ==> secs * TicksPerSecond <= ticks - UnixEpochTicks < (secs + 1) * TicksPerSecond
    ensures ticks < UnixEpochTicks ==> (secs - 1) * TicksPerSecond < ticks - UnixEpochTicks <= secs * TicksPerSecond
  {
    TruncDiv(ticks - UnixEpochTicks, TicksPerSecond)
  }

  /** The Unix second a timestamp falls in: the whole second at or before it. */
  function UnixSeconds(ticks: int): (secs: int)
    ensures secs * TicksPerSecond <= ticks - UnixEpochTicks < (secs + 1) * TicksPerSecond
  {
    (ticks - UnixEpochTicks) / TicksPerSecond
  }

  /** Half a second before the epoch: truncation gives the epoch itself, one second late. */
  lemma TruncationMovesPreEpochTimesLate()
    ensures UnixSecondsAsWritten(UnixEpochTicks - 5000000) == 0
    ensures UnixSeconds(UnixEpochTicks - 5000000) == -1
  {
  }

  /** The two conversions differ exactly on pre-epoch timestamps that are not whole seconds. */
  lemma ConversionsAgreeExceptBeforeEpoch(ticks: int)
    ensures UnixSecondsAsWritten(ticks) == UnixSeconds(ticks) <==>
            ticks >= UnixEpochTicks || (ticks - UnixEpochTicks) % TicksPerSecond == 0
  {
  }

  /**
    The entry `map` makes of one timestamp: the timestamp itself under the
    key of the calendar fields of its second, converted as written.
   */
  function Classify(enabled: set<Field>, localtime: int -> Tm, ticks: int): (e: Entry<int>)
    ensures e.value == ticks
    ensures ticks >= UnixEpochTicks || (ticks - UnixEpochTicks) % TicksPerSecond == 0 ==>
              e.key == BucketKey(enabled, localtime(UnixSeconds(ticks)))
    ensures ticks < UnixEpochTicks && (ticks - UnixEpochTicks) % TicksPerSecond != 0 ==>
              e.key == BucketKey(enabled, localtime(UnixSeconds(ticks) + 1))
  {
    ConversionsAgreeExceptBeforeEpoch(ticks);
    Entry(BucketKey(enabled, localtime(UnixSecondsAsWritten(ticks))), ticks)
  }

  /** Half a second before the epoch, `map` files under the fields of second 0, not of second -1. */
  lemma ClassifyHalfSecondBeforeEpoch(enabled: set<Field>, localtime: int -> Tm)
    ensures Classify(enabled, localtime, UnixEpochTicks - 5000000).key == BucketKey(enabled, localtime(0))
    ensures UnixSeconds(UnixEpochTicks - 5000000) == -1
  {
    TruncationMovesPreEpochTimesLate();
  }

  /** `Classify` as a classifier of batch values; it files every timestamp. */
  function Classifier(enabled: set<Field>, localtime: int -> Tm): (f: int -> Option<Entry<int>>)
    ensures forall t :: f(t) == Some(Classify(enabled, localtime, t))
  {
    t => Some(Classify(enabled, localtime, t))
  }

  /**
    Every timestamp present gives exactly one entry, in input order: the
    timestamp itself, unmodified, under the key of its calendar fields.
   */
  lemma OneEntryPerTimestamp(enabled: set<Field>, localtime: int -> Tm, inputs: seq<Option<int>>)
    ensures |Gather(Classifier(enabled, localtime), inputs)| == |Present(inputs)|
    ensures forall i | 0 <= i < |Present(inputs)| ::
              Gather(Classifier(enabled, localtime), inputs)[i] ==
              Entry(BucketKey(enabled, localtime(UnixSecondsAsWritten(Present(inputs)[i]))), Present(inputs)[i])
  {
    GatherOnePerValue(Classifier(enabled, localtime), inputs);
  }

  /**
    `map` over one batch of tuples: each present timestamp is inserted under
    its key, in input order; null tuples change nothing. The result is the
    store merged with the batch's entries, so by `GatherBatches` a stream
    processed in several batches ends the same as in one.
   */
  method Map(enabled: set<Field>, localtime: int -> Tm, s: Store<int>, inputs: seq<Option<int>>) returns (r: Store<int>)
    requires Ordered(s)
    ensures Ordered(r)
    ensures r == Reduce(s, Gather(Classifier(enabled, localtime), inputs))
  {
    r := s;
    var i := 0;
    while i < |inputs|
      invariant 0 <= i <= |inputs|
      invariant Ordered(r)
      invariant r == Reduce(s, Gather(Classifier(enabled, localtime), inputs[..i]))
    {
      GatherStep(Classifier(enabled, localtime), s, inputs, i);
      ReduceEntryOf(Classifier(enabled, localtime), r, inputs[i]);
      if inputs[i].Some? {
        var ticks := inputs[i].value;
        var key := ComposeKey(enabled, localtime(UnixSecondsAsWritten(ticks)));
        r := Insert(r, key, ticks);
      }
      i := i + 1;
    }
    assert inputs[..i] == inputs;
  }
}
