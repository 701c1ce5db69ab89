/**
  The registry of confirmed decays: the decayed-objects JSON feed is flattened into
  normalised records (`parseMdyDate`, `normalizeDecayRecord`, `flattenDecayData`) and
  indexed by NORAD catalogue id (`buildDecayMap`), keeping the latest decay per id.
*/
module DecayRegistry {
  import opened Wrappers
  import opened Text
  import opened Calendar

  /** At most this many distinct skip warnings are logged per flatten. */
  const WARN_LIMIT: nat := 5

  /** A parsed `MM/DD/YYYY` date: UTC midnight in milliseconds, and its `YYYY-MM-DD` text. */
  datatype ParsedDate = ParsedDate(ms: int, iso: string)

  /** A normalised registry record. */
  datatype DecayRecord = DecayRecord(
    noradId: string,
    decayDate: int,
    decayDateIso: string,
    launchDateIso: Option<string>,
    objectName: Option<Value>)

  /**
    One element of a feed array, as the keys it carries. An element that is not an
    object (a number, a string, `null`) has no such properties and reads as the empty map.
  */
  type RawEntry = map<string, Value>

  /** The value of a top-level key of the feed: only arrays contribute entries. */
  datatype Group = Entries(entries: seq<RawEntry>) | NotArray

  /** The parsed feed: `null` or a primitive, or an object whose keys are visited in order. */
  datatype Feed = NotObject | Object(groups: seq<Group>)

  /** The reason a feed entry is skipped; equal warnings are equal log messages. */
  datatype Warning = MissingNoradId | InvalidDecayDate(noradId: string)

  datatype Normalized = Accepted(record: DecayRecord) | Rejected(warning: Warning)

  // ---------------------------------------------------------------------------
  // parseMdyDate

  /** `Date.UTC` reads a year argument from 0 to 99 as 1900 to 1999. */
  function UtcYear(y: int): int {
    if 0 <= y <= 99 then 1900 + y else y
  }

  /** A `parseInt` result that `!x` rejects: NaN or zero. */
  predicate Falsy(p: Option<int>) {
    p.None? || p.value == 0
  }

  /**
    `parseMdyDate`: a string `month/day/year` of exactly three slash-separated parts,
    each read by `parseInt` and none NaN or zero, becomes UTC midnight of that day
    (months and days out of range roll over as in `Date.UTC`); a time outside the
    Date range, or any other input, gives `None`.
  */
  function ParseMdyDate(v: Value): (r: Option<ParsedDate>)
    ensures r.Some? ==> v.Str? && InTimeRange(r.value.ms)
  {
    if !v.Str? then None
    else
      var parts := Split(v.s, '/');
      if |parts| != 3 then None
      else MdyOfNumbers(ParseInt(parts[0]), ParseInt(parts[1]), ParseInt(parts[2]))
  }

  /** The second half of `parseMdyDate`: the date of the three numbers the parts gave. */
  function MdyOfNumbers(month: Option<int>, day: Option<int>, year: Option<int>): (r: Option<ParsedDate>)
    ensures r.Some? ==> InTimeRange(r.value.ms)
  {
    if Falsy(month) || Falsy(day) || Falsy(year) then None
    else DateOfDay(MakeDay(UtcYear(year.value), month.value - 1, day.value))
  }

  /** UTC midnight of day number `z` and its ISO text, when that time is a valid Date. */
  function DateOfDay(z: int): (r: Option<ParsedDate>)
    ensures r.Some? ==> InTimeRange(r.value.ms)
  {
    if !InTimeRange(z * MS_PER_DAY) then None
    else Some(ParsedDate(z * MS_PER_DAY, IsoDayString(DecodeDay(z))))
  }

  /**
    The rejections of `parseMdyDate`: anything but a string, a string that does not have
    exactly three slash-separated parts, or a part that `parseInt` reads as NaN or zero.
  */
  lemma ParseMdyRejects(v: Value)
    ensures !v.Str? ==> ParseMdyDate(v).None?
    ensures v.Str? && |Split(v.s, '/')| != 3 ==> ParseMdyDate(v).None?
    ensures v.Str? && |Split(v.s, '/')| == 3
            && (Falsy(ParseInt(Split(v.s, '/')[0])) || Falsy(ParseInt(Split(v.s, '/')[1]))
                || Falsy(ParseInt(Split(v.s, '/')[2])))
            ==> ParseMdyDate(v).None?
  {
    if v.Str? {
      var parts := Split(v.s, '/');
      if |parts| == 3 {
        var month, day, year := ParseInt(parts[0]), ParseInt(parts[1]), ParseInt(parts[2]);
        if Falsy(month) || Falsy(day) || Falsy(year) {
          assert MdyOfNumbers(month, day, year) == None;
        }
      }
    }
  }

  /** The canonical `MM/DD/YYYY` text of a date. */
  function MdyText(year: nat, month: nat, day: nat): string {
    Pad2(month) + "/" + Pad2(day) + "/" + DecimalString(year)
  }

  lemma NatDigitsNoSlash(n: nat)
    ensures '/' !in NatDigits(n)
  {
  }

  lemma Pad2NoSlash(n: nat)
    ensures '/' !in Pad2(n)
  {
    PaddedValue(NatDigits(n), 2);
  }

  /** Years 100 to 9999 keep their days well inside the Date range. */
  lemma DayRange(y: int, m: int, d: int)
    requires 100 <= y <= 9999 && ValidYmd(Ymd(y, m, d))
    ensures InTimeRange(MakeDay(y, m - 1, d) * MS_PER_DAY)
  {
    MakeDayInYear(y, m - 1, d);
    MonthTable(y);
    MonthsIncreasing(y, m - 1, 11);
    DayFromYearMonotone(99, y);
    DayFromYearMonotone(y, 10000);
  }

  lemma MdySplit(year: nat, month: nat, day: nat)
    ensures Split(MdyText(year, month, day), '/') == [Pad2(month), Pad2(day), DecimalString(year)]
  {
    Pad2NoSlash(month);
    Pad2NoSlash(day);
    NatDigitsNoSlash(year);
    SplitThree(Pad2(month), Pad2(day), DecimalString(year), '/');
  }

  /** How `ParseMdyDate` reads text whose three parts parse to non-zero numbers. */
  lemma ParseMdyOfParts(text: string, month: int, day: int, year: int)
    requires |Split(text, '/')| == 3
    requires ParseInt(Split(text, '/')[0]) == Some(month) && month != 0
    requires ParseInt(Split(text, '/')[1]) == Some(day) && day != 0
    requires ParseInt(Split(text, '/')[2]) == Some(year) && year != 0
    requires InTimeRange(MakeDay(UtcYear(year), month - 1, day) * MS_PER_DAY)
    ensures var z := MakeDay(UtcYear(year), month - 1, day);
      ParseMdyDate(Str(text)) == Some(ParsedDate(z * MS_PER_DAY, IsoDayString(DecodeDay(z))))
  {
    assert ParseMdyDate(Str(text)) == MdyOfNumbers(Some(month), Some(day), Some(year));
    MdyOfValidNumbers(month, day, year);
    DateOfValidDay(MakeDay(UtcYear(year), month - 1, day));
  }

  lemma MdyOfValidNumbers(month: int, day: int, year: int)
    requires month != 0 && day != 0 && year != 0
    ensures MdyOfNumbers(Some(month), Some(day), Some(year)) == DateOfDay(MakeDay(UtcYear(year), month - 1, day))
  {
    assert !Falsy(Some(month)) && !Falsy(Some(day)) && !Falsy(Some(year));
  }

  lemma DateOfValidDay(z: int)
    requires InTimeRange(z * MS_PER_DAY)
    ensures DateOfDay(z) == Some(ParsedDate(z * MS_PER_DAY, IsoDayString(DecodeDay(z))))
  {
  }

  lemma MdyFields(year: nat, month: nat, day: nat)
    ensures ParseInt(Pad2(month)) == Some(month as int)
    ensures ParseInt(Pad2(day)) == Some(day as int)
    ensures ParseInt(DecimalString(year)) == Some(year as int)
  {
    ParseIntOfPadded(month, 2);
    ParseIntOfPadded(day, 2);
    ParseIntOfPadded(year, 0);
    assert PadStart(NatDigits(year), 0, '0') == DecimalString(year);
  }

  /**
    The canonical text of a valid date is read back as that date's UTC midnight, with a
    two-digit year taken as 19xx; the ISO text names the same day.
  */
  lemma ParseMdyRoundTrip(year: nat, month: nat, day: nat)
    requires 1 <= year <= 9999
    requires ValidYmd(Ymd(UtcYear(year), month, day))
    ensures ParseMdyDate(Str(MdyText(year, month, day)))
         == Some(ParsedDate(MakeDay(UtcYear(year), month - 1, day) * MS_PER_DAY,
                            IsoDayString(Ymd(UtcYear(year), month, day))))
  {
    var d := Ymd(UtcYear(year), month, day);
    MonthTable(d.year);
    assert 1 <= month && 1 <= day;
    MdySplit(year, month, day);
    MdyFields(year, month, day);
    DayRange(d.year, month, day);
    ParseMdyOfParts(MdyText(year, month, day), month, day, year);
    DecodeMakeDay(d);
  }

  // ---------------------------------------------------------------------------
  // normalizeDecayRecord

  /** `raw?.key`: the value under `key`, or `undefined`. */
  function Field(raw: RawEntry, key: string): Value {
    if key in raw then raw[key] else Null
  }

  /** `a ?? b`. */
  function Coalesce(a: Value, b: Value): Value {
    if a.Null? then b else a
  }

  /** `a || b || null`. */
  function FirstTruthy(a: Value, b: Value): (r: Option<Value>)
    ensures r.Some? ==> Truthy(r.value) && (r.value == a || r.value == b)
    ensures r.None? <==> !Truthy(a) && !Truthy(b)
  {
    if Truthy(a) then Some(a) else if Truthy(b) then Some(b) else None
  }

  /** The catalogue id under its first present alias, as trimmed text; `None` if absent. */
  function NoradIdOf(raw: RawEntry): (id: Option<string>)
    ensures id.Some? ==> id.value == TrimJs(id.value)
  {
    var v := Coalesce(Coalesce(Coalesce(Field(raw, "NORAD_CAT_ID"), Field(raw, "norad_cat_id")),
                               Field(raw, "NORADID")), Field(raw, "noradId"));
    if v.Null? then None
    else
      var t := TrimJs(ToJsString(v));
      TrimIdempotent(ToJsString(v));
      Some(t)
  }

  lemma TrimStartNoSpace(s: string)
    requires s == [] || !IsJsSpace(s[0])
    ensures TrimStartJs(s) == s
  {
  }

  lemma TrimEndNoSpace(s: string)
    requires s == [] || !IsJsSpace(s[|s| - 1])
    ensures TrimEndJs(s) == s
  {
  }

  /** Trimming twice is trimming once. */
  lemma TrimIdempotent(s: string)
    ensures TrimJs(TrimJs(s)) == TrimJs(s)
  {
    var t := TrimJs(s);
    TrimStartNoSpace(t);
    TrimEndNoSpace(t);
  }

  function DecayField(raw: RawEntry): Value {
    Coalesce(Field(raw, "DECAY_DATE"), Field(raw, "decay_date"))
  }

  function LaunchField(raw: RawEntry): Value {
    Coalesce(Field(raw, "LAUNCH_DATE"), Field(raw, "launch_date"))
  }

  /**
    `normalizeDecayRecord`: a record needs a non-empty catalogue id and a parseable decay
    date, checked in that order; the launch date and the object name are optional.
  */
  function NormalizeDecayRecord(raw: RawEntry): (r: Normalized)
    ensures r.Accepted? ==> r.record.noradId != "" && TrimJs(r.record.noradId) == r.record.noradId
  {
    var id := NoradIdOf(raw);
    if id.None? || id.value == "" then Rejected(MissingNoradId)
    else match ParseMdyDate(DecayField(raw))
      case None => Rejected(InvalidDecayDate(id.value))
      case Some(decay) =>
        var launch := ParseMdyDate(LaunchField(raw));
        Accepted(DecayRecord(
          id.value, decay.ms, decay.iso,
          if launch.Some? then Some(launch.value.iso) else None,
          FirstTruthy(Field(raw, "OBJECT_NAME"), Field(raw, "object_name"))))
  }

  /**
    An entry is accepted exactly when it has a non-empty id and a valid decay date; a
    missing id is reported before a bad date; the accepted record carries the trimmed id
    and the decay date parsed from the first present decay-date alias.
  */
  lemma NormalizeAcceptance(raw: RawEntry)
    ensures NormalizeDecayRecord(raw).Accepted?
        <==> NoradIdOf(raw).Some? && NoradIdOf(raw).value != "" && ParseMdyDate(DecayField(raw)).Some?
    ensures NormalizeDecayRecord(raw) == Rejected(MissingNoradId)
        <==> NoradIdOf(raw).None? || NoradIdOf(raw) == Some("")
    ensures NormalizeDecayRecord(raw).Accepted? ==>
        var p := ParseMdyDate(DecayField(raw)).value;
        var rec := NormalizeDecayRecord(raw).record;
        Some(rec.noradId) == NoradIdOf(raw) && rec.noradId == TrimJs(rec.noradId)
        && rec.decayDate == p.ms && rec.decayDateIso == p.iso
  {
    var id := NoradIdOf(raw);
    if id.Some? && id.value != "" {
      assert NormalizeDecayRecord(raw) != Rejected(MissingNoradId);
    }
  }

  /** Acceptance, the id, the decay date and the warning depend on the id and decay-date fields only. */
  lemma NormalizeDependsOnIdAndDecay(a: RawEntry, b: RawEntry)
    requires NoradIdOf(a) == NoradIdOf(b) && DecayField(a) == DecayField(b)
    ensures NormalizeDecayRecord(a).Accepted? == NormalizeDecayRecord(b).Accepted?
    ensures NormalizeDecayRecord(a).Accepted? ==>
      var ra, rb := NormalizeDecayRecord(a).record, NormalizeDecayRecord(b).record;
      ra.noradId == rb.noradId && ra.decayDate == rb.decayDate && ra.decayDateIso == rb.decayDateIso
    ensures NormalizeDecayRecord(a).Rejected? ==> NormalizeDecayRecord(a).warning == NormalizeDecayRecord(b).warning
  {
    var id := NoradIdOf(a);
    var decay := ParseMdyDate(DecayField(a));
    if id.None? || id.value == "" {
      assert NormalizeDecayRecord(a) == NormalizeDecayRecord(b) == Rejected(MissingNoradId);
    } else if decay.None? {
      assert NormalizeDecayRecord(a) == NormalizeDecayRecord(b) == Rejected(InvalidDecayDate(id.value));
    } else {
      var ra, rb := NormalizeDecayRecord(a).record, NormalizeDecayRecord(b).record;
      assert ra.noradId == id.value == rb.noradId;
      assert ra.decayDate == decay.value.ms == rb.decayDate;
      assert ra.decayDateIso == decay.value.iso == rb.decayDateIso;
    }
  }

  /**
    The launch date never decides whether an entry is kept: entries that differ only in
    their launch-date fields are both kept with the same id and decay date, or both
    rejected with the same warning.
  */
  lemma LaunchDateNonFatal(a: RawEntry, b: RawEntry)
    requires forall k :: k != "LAUNCH_DATE" && k != "launch_date" ==> Field(a, k) == Field(b, k)
    ensures NormalizeDecayRecord(a).Accepted? == NormalizeDecayRecord(b).Accepted?
    ensures NormalizeDecayRecord(a).Accepted? ==>
      var ra, rb := NormalizeDecayRecord(a).record, NormalizeDecayRecord(b).record;
      ra.noradId == rb.noradId && ra.decayDate == rb.decayDate && ra.decayDateIso == rb.decayDateIso
    ensures NormalizeDecayRecord(a).Rejected? ==> NormalizeDecayRecord(a).warning == NormalizeDecayRecord(b).warning
  {
    assert Field(a, "NORAD_CAT_ID") == Field(b, "NORAD_CAT_ID");
    assert Field(a, "norad_cat_id") == Field(b, "norad_cat_id");
    assert Field(a, "NORADID") == Field(b, "NORADID");
    assert Field(a, "noradId") == Field(b, "noradId");
    assert Field(a, "DECAY_DATE") == Field(b, "DECAY_DATE");
    assert Field(a, "decay_date") == Field(b, "decay_date");
    NormalizeDependsOnIdAndDecay(a, b);
  }

  // ---------------------------------------------------------------------------
  // flattenDecayData

  /** The entries of every array in the feed, in key order. */
  function AllEntries(groups: seq<Group>): seq<RawEntry> {
    if groups == [] then []
    else
      var last := groups[|groups| - 1];
      AllEntries(groups[..|groups| - 1]) + (if last.Entries? then last.entries else [])
  }

  function FeedEntries(data: Feed): seq<RawEntry> {
    if data.Object? then AllEntries(data.groups) else []
  }

  /** The records the accepted entries normalise to, in order. */
  function AcceptedRecords(es: seq<RawEntry>): (rs: seq<DecayRecord>)
    ensures |rs| <= |es|
  {
    if es == [] then []
    else
      var n := NormalizeDecayRecord(es[|es| - 1]);
      AcceptedRecords(es[..|es| - 1]) + (if n.Accepted? then [n.record] else [])
  }

  /** The warnings of the rejected entries, in order. */
  function Rejections(es: seq<RawEntry>): (ws: seq<Warning>)
    ensures |ws| <= |es|
  {
    if es == [] then []
    else
      var n := NormalizeDecayRecord(es[|es| - 1]);
      Rejections(es[..|es| - 1]) + (if n.Rejected? then [n.warning] else [])
  }

  lemma Snoc(es: seq<RawEntry>, e: RawEntry)
    ensures var n := NormalizeDecayRecord(e);
      AcceptedRecords(es + [e]) == AcceptedRecords(es) + (if n.Accepted? then [n.record] else [])
      && Rejections(es + [e]) == Rejections(es) + (if n.Rejected? then [n.warning] else [])
  {
    assert (es + [e])[..|es|] == es;
  }

  lemma AllEntriesSnoc(groups: seq<Group>, g: nat)
    requires g < |groups|
    ensures AllEntries(groups[..g + 1])
         == AllEntries(groups[..g]) + (if groups[g].Entries? then groups[g].entries else [])
  {
    assert groups[..g + 1][..g] == groups[..g];
  }

  /** Every entry is either kept as a record or skipped with a warning. */
  lemma {:induction false} KeptPlusSkipped(es: seq<RawEntry>)
    ensures |AcceptedRecords(es)| + |Rejections(es)| == |es|
  {
    if es != [] {
      KeptPlusSkipped(es[..|es| - 1]);
    }
  }

  /** Every kept record is the normalisation of one of the entries. */
  lemma {:induction false} AcceptedFromEntries(es: seq<RawEntry>, r: DecayRecord)
    requires r in AcceptedRecords(es)
    ensures exists e :: e in es && NormalizeDecayRecord(e) == Accepted(r)
  {
    var init := es[..|es| - 1];
    var n := NormalizeDecayRecord(es[|es| - 1]);
    if r in AcceptedRecords(init) {
      AcceptedFromEntries(init, r);
      var e :| e in init && NormalizeDecayRecord(e) == Accepted(r);
      assert e in es;
    } else {
      assert n == Accepted(r);
    }
  }

  predicate Distinct<T(==)>(xs: seq<T>) {
    forall i, j :: 0 <= i < j < |xs| ==> xs[i] != xs[j]
  }

  /** The warnings in order of first occurrence, each once. */
  function FirstDistinct(ws: seq<Warning>): (r: seq<Warning>)
    ensures Distinct(r)
    ensures forall w :: w in r <==> w in ws
  {
    if ws == [] then []
    else
      var p := FirstDistinct(ws[..|ws| - 1]);
      var w := ws[|ws| - 1];
      assert ws == ws[..|ws| - 1] + [w];
      if w in p then p else p + [w]
  }

  /** The first `n` elements, or all of them when there are fewer. */
  function Take<T>(xs: seq<T>, n: nat): (r: seq<T>)
    ensures |r| == if |xs| < n then |xs| else n
    ensures r == xs[..|r|]
  {
    if |xs| <= n then xs else xs[..n]
  }

  /** The throttled `warn` of `flattenDecayData` applied to one more warning. */
  function Warn(logged: seq<Warning>, w: Warning): seq<Warning> {
    if |logged| < WARN_LIMIT && w !in logged then logged + [w] else logged
  }

  /** Throttling keeps the log equal to the first distinct warnings, at most five of them. */
  lemma WarnStep(ws: seq<Warning>, w: Warning)
    ensures Warn(Take(FirstDistinct(ws), WARN_LIMIT), w) == Take(FirstDistinct(ws + [w]), WARN_LIMIT)
  {
    assert (ws + [w])[..|ws|] == ws;
  }

  /**
    What the log holds after a flatten: distinct warnings, at most five, each one a
    reason some entry was skipped; when at least five distinct reasons occurred, five
    are logged, and otherwise every distinct reason is.
  */
  lemma LogProperties(es: seq<RawEntry>)
    ensures var log := Take(FirstDistinct(Rejections(es)), WARN_LIMIT);
      Distinct(log) && |log| <= WARN_LIMIT
      && (forall w :: w in log ==> w in Rejections(es))
      && (|FirstDistinct(Rejections(es))| >= WARN_LIMIT ==> |log| == WARN_LIMIT)
      && (|FirstDistinct(Rejections(es))| < WARN_LIMIT ==> forall w :: w in Rejections(es) ==> w in log)
  {
  }

  /**
    `flattenDecayData`: the records of all accepted entries in feed order, and the
    warnings the throttled logger lets through. A feed that is not an object has none.
  */
  method FlattenDecayData(data: Feed) returns (records: seq<DecayRecord>, logged: seq<Warning>)
    ensures records == AcceptedRecords(FeedEntries(data))
    ensures logged == Take(FirstDistinct(Rejections(FeedEntries(data))), WARN_LIMIT)
  {
    records, logged := [], [];
    if data.NotObject? {
      return;
    }
    var groups := data.groups;
    var g := 0;
    while g < |groups|
      invariant 0 <= g <= |groups|
      invariant records == AcceptedRecords(AllEntries(groups[..g]))
      invariant logged == Take(FirstDistinct(Rejections(AllEntries(groups[..g]))), WARN_LIMIT)
    {
      var arr := if groups[g].Entries? then groups[g].entries else [];
      records, logged := FlattenArray(arr, AllEntries(groups[..g]), records, logged);
      AllEntriesSnoc(groups, g);
      g := g + 1;
    }
    assert groups[..|groups|] == groups;
  }

  /** The `forEach` over one array of the feed, continuing after the entries `done`. */
  method FlattenArray(arr: seq<RawEntry>, ghost done: seq<RawEntry>, records0: seq<DecayRecord>, logged0: seq<Warning>)
    returns (records: seq<DecayRecord>, logged: seq<Warning>)
    requires records0 == AcceptedRecords(done)
    requires logged0 == Take(FirstDistinct(Rejections(done)), WARN_LIMIT)
    ensures records == AcceptedRecords(done + arr)
    ensures logged == Take(FirstDistinct(Rejections(done + arr)), WARN_LIMIT)
  {
    records, logged := records0, logged0;
    var i := 0;
    assert done + arr[..0] == done;
    while i < |arr|
      invariant 0 <= i <= |arr|
      invariant records == AcceptedRecords(done + arr[..i])
      invariant logged == Take(FirstDistinct(Rejections(done + arr[..i])), WARN_LIMIT)
    {
      PrefixSnoc(done, arr, i);
      records, logged := Visit(arr[i], done + arr[..i], records, logged);
      i := i + 1;
    }
    assert arr[..|arr|] == arr;
  }

  lemma PrefixSnoc<T>(done: seq<T>, arr: seq<T>, i: nat)
    requires i < |arr|
    ensures done + arr[..i + 1] == (done + arr[..i]) + [arr[i]]
  {
  }

  /** One entry: keep its record, or pass its warning to the throttled logger. */
  method Visit(e: RawEntry, ghost seen: seq<RawEntry>, records0: seq<DecayRecord>, logged0: seq<Warning>)
    returns (records: seq<DecayRecord>, logged: seq<Warning>)
    requires records0 == AcceptedRecords(seen)
    requires logged0 == Take(FirstDistinct(Rejections(seen)), WARN_LIMIT)
    ensures records == AcceptedRecords(seen + [e])
    ensures logged == Take(FirstDistinct(Rejections(seen + [e])), WARN_LIMIT)
  {
    Snoc(seen, e);
    records, logged := records0, logged0;
    var n := NormalizeDecayRecord(e);
    if n.Rejected? {
      assert Rejections(seen + [e]) == Rejections(seen) + [n.warning];
      WarnStep(Rejections(seen), n.warning);
      logged := Warn(logged, n.warning);
    } else {
      assert Rejections(seen + [e]) == Rejections(seen);
      records := records + [n.record];
    }
  }

  // ---------------------------------------------------------------------------
  // buildDecayMap

  /**
    `buildDecayMap`: one record per catalogue id, the one with the latest decay date;
    among equally late records the first one is kept.
  */
  method BuildDecayMap(records: seq<DecayRecord>) returns (m: map<string, DecayRecord>)
    ensures forall i :: 0 <= i < |records| ==> records[i].noradId in m
    ensures forall i :: 0 <= i < |records| ==> records[i].decayDate <= m[records[i].noradId].decayDate
    ensures forall id :: id in m ==> m[id].noradId == id
    ensures forall id :: id in m ==>
      (exists i :: 0 <= i < |records| && records[i] == m[id] && EarliestOfLatest(records, i))
  {
    m := map[];
    var i := 0;
    while i < |records|
      invariant 0 <= i <= |records|
      invariant forall k :: 0 <= k < i ==> records[k].noradId in m
      invariant forall k :: 0 <= k < i ==> records[k].decayDate <= m[records[k].noradId].decayDate
      invariant forall id :: id in m ==> m[id].noradId == id
      invariant forall id :: id in m ==>
        (exists k :: 0 <= k < i && records[k] == m[id] && EarliestOfLatest(records, k))
    {
      var rec := records[i];
      if rec.noradId !in m || m[rec.noradId].decayDate < rec.decayDate {
        assert EarliestOfLatest(records, i) by {
          forall j | 0 <= j < i && records[j].noradId == rec.noradId
            ensures records[j].decayDate < rec.decayDate
          {
            assert records[j].noradId in m;
          }
        }
        m := m[rec.noradId := rec];
      }
      i := i + 1;
    }
  }

  /** No earlier record with the same id is as late as record `k`. */
  predicate EarliestOfLatest(records: seq<DecayRecord>, k: int)
    requires 0 <= k < |records|
  {
    forall j :: 0 <= j < k && records[j].noradId == records[k].noradId ==> records[j].decayDate < records[k].decayDate
  }
}
