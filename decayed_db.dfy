/**
  The decayed-satellite database builder (`buildDecayedDB.run`): read the SATCAT CSV
  lines, index the header, keep the payload rows that have a decay date, group them by
  object name in sorted order (a `TreeMap`) and write the groups as JSON. The file is
  given as its lines; reading and writing files is not part of the model.
*/
module DecayedDb {
  import opened Wrappers
  import Csv
  import JsonText

  const COL_OBJECT_NAME: string := "OBJECT_NAME"
  const COL_OBJECT_ID: string := "OBJECT_ID"
  const COL_NORAD_CAT_ID: string := "NORAD_CAT_ID"
  const COL_OBJECT_TYPE: string := "OBJECT_TYPE"
  const COL_LAUNCH_DATE: string := "LAUNCH_DATE"
  const COL_LAUNCH_SITE: string := "LAUNCH_SITE"
  const COL_DECAY_DATE: string := "DECAY_DATE"

  /** The columns `run` requires, in the order it checks them. */
  const REQUIRED: seq<string> :=
    [COL_OBJECT_NAME, COL_OBJECT_ID, COL_NORAD_CAT_ID, COL_OBJECT_TYPE, COL_LAUNCH_DATE, COL_LAUNCH_SITE, COL_DECAY_DATE]

  const DELIMITER: char := ','
  const UNKNOWN_OBJECT_NAME: string := "(UNKNOWN_OBJECT_NAME)"

  // ---------------------------------------------------------------------------
  // Java string helpers: trim, safeTrim, isBlank, toUpperCase

  /** `String.trim` removes every character at or below U+0020 from both ends. */
  predicate IsJavaSpace(c: char) {
    c <= ' '
  }

  function TrimLeading(s: string): (r: string)
    ensures |r| <= |s|
  {
    if s != [] && IsJavaSpace(s[0]) then TrimLeading(s[1..]) else s
  }

  function TrimTrailing(s: string): (r: string)
    ensures |r| <= |s|
  {
    if s != [] && IsJavaSpace(s[|s| - 1]) then TrimTrailing(s[..|s| - 1]) else s
  }

  /** Trimming the front drops a run of white space and stops at the first other character. */
  lemma {:induction false} TrimLeadingCut(s: string)
    ensures var r := TrimLeading(s);
      r == s[|s| - |r|..] && (r == [] || !IsJavaSpace(r[0]))
      && forall i :: 0 <= i < |s| - |r| ==> IsJavaSpace(s[i])
  {
    if s != [] && IsJavaSpace(s[0]) {
      TrimLeadingCut(s[1..]);
      var r := TrimLeading(s);
      assert s[1..][|s| - 1 - |r|..] == s[|s| - |r|..];
      forall i | 0 <= i < |s| - |r| ensures IsJavaSpace(s[i]) {
        if i > 0 {
          assert s[i] == s[1..][i - 1];
        }
      }
    }
  }

  /** Trimming the back drops a run of white space and stops at the last other character. */
  lemma {:induction false} TrimTrailingCut(s: string)
    ensures var r := TrimTrailing(s);
      r == s[..|r|] && (r == [] || !IsJavaSpace(r[|r| - 1]))
      && forall i :: |r| <= i < |s| ==> IsJavaSpace(s[i])
  {
    if s != [] && IsJavaSpace(s[|s| - 1]) {
      var init := s[..|s| - 1];
      TrimTrailingCut(init);
      var r := TrimTrailing(s);
      assert init[..|r|] == s[..|r|];
      forall i | |r| <= i < |s| ensures IsJavaSpace(s[i]) {
        if i < |s| - 1 {
          assert s[i] == init[i];
        }
      }
    }
  }

  /** `s.trim()`. */
  function JavaTrim(s: string): (r: string)
    ensures r == [] || (!IsJavaSpace(r[0]) && !IsJavaSpace(r[|r| - 1]))
  {
    var lead := TrimLeading(s);
    TrimLeadingCut(s);
    TrimTrailingCut(lead);
    TrimTrailing(lead)
  }

  /**
    The trimmed text is a slice of the original, and everything cut off on either side
    is white space or a control character.
  */
  lemma JavaTrimSlice(s: string) returns (i: nat, j: nat)
    ensures i <= j <= |s| && JavaTrim(s) == s[i..j]
    ensures forall k :: 0 <= k < i ==> IsJavaSpace(s[k])
    ensures forall k :: j <= k < |s| ==> IsJavaSpace(s[k])
  {
    var lead := TrimLeading(s);
    TrimLeadingCut(s);
    TrimTrailingCut(lead);
    var r := TrimTrailing(lead);
    i := |s| - |lead|;
    j := i + |r|;
    assert s[i..j] == lead[..|r|];
    forall k | j <= k < |s| ensures IsJavaSpace(s[k]) {
      assert s[k] == lead[k - i];
    }
  }

  /** Trimming twice trims nothing more. */
  lemma JavaTrimIdempotent(s: string)
    ensures JavaTrim(JavaTrim(s)) == JavaTrim(s)
  {
    var r := JavaTrim(s);
    if r != [] {
      assert TrimLeading(r) == r;
      assert TrimTrailing(r) == r;
    }
  }

  /** `safeTrim`: `null` becomes the empty text, anything else is trimmed. */
  function SafeTrim(s: Option<string>): (r: string)
    ensures s.None? ==> r == []
    ensures r == [] || (!IsJavaSpace(r[0]) && !IsJavaSpace(r[|r| - 1]))
  {
    if s.None? then [] else JavaTrim(s.value)
  }

  /** `isBlank`: `null`, or nothing left after trimming. */
  function IsBlank(s: Option<string>): (b: bool)
    ensures b <==> SafeTrim(s) == []
  {
    s.None? || JavaTrim(s.value) == []
  }

  /** A text is blank exactly when all its characters are white space or control characters. */
  lemma BlankIffSpaces(s: string)
    ensures IsBlank(Some(s)) <==> forall k :: 0 <= k < |s| ==> IsJavaSpace(s[k])
  {
    var i, j := JavaTrimSlice(s);
    if JavaTrim(s) != [] {
      assert s[i] == JavaTrim(s)[0];
      assert !IsJavaSpace(s[i]);
    }
  }

  /** `get`: the trimmed cell at `index`, or the empty text when the row has no such cell. */
  function Get(row: seq<string>, index: int): (r: string)
    ensures !(0 <= index < |row|) ==> r == []
    ensures 0 <= index < |row| ==> r == JavaTrim(row[index])
    ensures JavaTrim(r) == r
  {
    if index < 0 || index >= |row| then []
    else
      JavaTrimIdempotent(row[index]);
      JavaTrim(row[index])
  }

  /** `Character.toUpperCase` on ASCII letters. */
  function UpperChar(c: char): char {
    if 'a' <= c <= 'z' then (c as int - 32) as char else c
  }

  /** `toUpperCase(Locale.ROOT)`, letter by letter. */
  function UpperRoot(s: string): (r: string)
    ensures |r| == |s|
  {
    seq(|s|, i requires 0 <= i < |s| => UpperChar(s[i]))
  }

  predicate NoLower(s: string) {
    forall i :: 0 <= i < |s| ==> !('a' <= s[i] <= 'z')
  }

  /** Upper-casing a text with no lower-case letter changes nothing. */
  lemma UpperOfUpper(s: string)
    requires NoLower(s)
    ensures UpperRoot(s) == s
  {
    assert forall i :: 0 <= i < |s| ==> UpperRoot(s)[i] == s[i];
  }

  /** `"PAY".equalsIgnoreCase(s)`. */
  predicate IsPay(s: string) {
    |s| == 3 && UpperChar(s[0]) == 'P' && UpperChar(s[1]) == 'A' && UpperChar(s[2]) == 'Y'
  }

  /** Equal to `PAY` ignoring case means upper-casing gives `PAY`. */
  lemma IsPayIffUpper(s: string)
    ensures IsPay(s) <==> UpperRoot(s) == "PAY"
  {
    if IsPay(s) {
      assert UpperRoot(s) == [UpperChar(s[0]), UpperChar(s[1]), UpperChar(s[2])];
    }
    if UpperRoot(s) == "PAY" {
      assert UpperRoot(s)[0] == UpperChar(s[0]) && UpperRoot(s)[1] == UpperChar(s[1]);
      assert UpperRoot(s)[2] == UpperChar(s[2]);
    }
  }

  // ---------------------------------------------------------------------------
  // indexMap and requireColumn

  /** The key a header cell is indexed under: trimmed and upper-cased. */
  function HeaderKey(cell: string): string {
    UpperRoot(JavaTrim(cell))
  }

  /** The header index: each key maps to a column, later columns overwriting earlier ones. */
  function IndexOf(header: seq<string>): map<string, int>
  {
    if header == [] then map[]
    else IndexOf(header[..|header| - 1])[HeaderKey(header[|header| - 1]) := |header| - 1]
  }

  /** `indexMap`: fill a map from the header cells, left to right. */
  method IndexMap(header: seq<string>) returns (m: map<string, int>)
    ensures m == IndexOf(header)
  {
    m := map[];
    var i := 0;
    while i < |header|
      invariant 0 <= i <= |header|
      invariant m == IndexOf(header[..i])
    {
      assert header[..i + 1][..i] == header[..i];
      m := m[HeaderKey(header[i]) := i];
      i := i + 1;
    }
    assert header[..i] == header;
  }

  /**
    Every header key is indexed, and each key maps to the LAST column with that key:
    when names repeat, the later column wins.
  */
  lemma {:induction false} IndexOfLastWins(header: seq<string>)
    ensures forall i :: 0 <= i < |header| ==> HeaderKey(header[i]) in IndexOf(header)
    ensures forall k :: k in IndexOf(header) ==>
      0 <= IndexOf(header)[k] < |header|
      && HeaderKey(header[IndexOf(header)[k]]) == k
      && forall j :: IndexOf(header)[k] < j < |header| ==> HeaderKey(header[j]) != k
  {
    if header != [] {
      var n := |header| - 1;
      var init := header[..n];
      IndexOfLastWins(init);
      var prev := IndexOf(init);
      var key := HeaderKey(header[n]);
      var idx := prev[key := n];
      assert IndexOf(header) == idx;
      forall i | 0 <= i < |header| ensures HeaderKey(header[i]) in idx {
        if i < n {
          assert header[i] == init[i];
        }
      }
      forall k | k in idx
        ensures 0 <= idx[k] < |header| && HeaderKey(header[idx[k]]) == k
        ensures forall j :: idx[k] < j < |header| ==> HeaderKey(header[j]) != k
      {
        if k != key {
          var v := prev[k];
          assert header[v] == init[v];
          forall j | v < j < |header| ensures HeaderKey(header[j]) != k {
            if j < n {
              assert header[j] == init[j];
            }
          }
        }
      }
    }
  }

  datatype DbError = EmptyCsv | MissingColumn(name: string)

  /** `requireColumn`: the column's upper-cased name must be a key of the index. */
  function RequireColumn(idx: map<string, int>, colName: string): Option<DbError> {
    if UpperRoot(colName) in idx then None else Some(MissingColumn(colName))
  }

  /** A column is accepted exactly when some header cell has its name, up to trimming and case. */
  lemma RequireColumnOfHeader(header: seq<string>, colName: string)
    ensures RequireColumn(IndexOf(header), colName).None?
        <==> exists i :: 0 <= i < |header| && HeaderKey(header[i]) == UpperRoot(colName)
  {
    IndexOfLastWins(header);
    var idx := IndexOf(header);
    if UpperRoot(colName) in idx {
      var i := idx[UpperRoot(colName)];
      assert 0 <= i < |header| && HeaderKey(header[i]) == UpperRoot(colName);
    }
  }

  /** The first required column that is missing, in the order `run` checks them. */
  function FirstMissing(idx: map<string, int>, cols: seq<string>): (r: Option<DbError>)
    ensures r.None? <==> forall i :: 0 <= i < |cols| ==> UpperRoot(cols[i]) in idx
    ensures r.Some? ==> exists i :: 0 <= i < |cols| && r == Some(MissingColumn(cols[i]))
                                  && UpperRoot(cols[i]) !in idx
                                  && forall j :: 0 <= j < i ==> UpperRoot(cols[j]) in idx
  {
    if cols == [] then None
    else if RequireColumn(idx, cols[0]).Some? then RequireColumn(idx, cols[0])
    else
      var r := FirstMissing(idx, cols[1..]);
      assert forall i :: 1 <= i < |cols| ==> cols[i] == cols[1..][i - 1];
      if r.Some? then
        var i :| 0 <= i < |cols[1..]| && r == Some(MissingColumn(cols[1..][i])) && UpperRoot(cols[1..][i]) !in idx
                 && forall j :: 0 <= j < i ==> UpperRoot(cols[1..][j]) in idx;
        assert forall j :: 0 <= j < i + 1 ==> UpperRoot(cols[j]) in idx;
        r
      else r
  }

  /** Every required column is indexed under its own name. */
  predicate HasColumns(idx: map<string, int>) {
    COL_OBJECT_NAME in idx && COL_OBJECT_ID in idx && COL_NORAD_CAT_ID in idx && COL_OBJECT_TYPE in idx
    && COL_LAUNCH_DATE in idx && COL_LAUNCH_SITE in idx && COL_DECAY_DATE in idx
  }

  /** The column names are already upper case, so passing `requireColumn` means `get` finds them. */
  lemma ColumnsPresent(idx: map<string, int>)
    requires FirstMissing(idx, REQUIRED).None?
    ensures HasColumns(idx)
  {
    ColumnPresent(idx, 0, COL_OBJECT_NAME);
    ColumnPresent(idx, 1, COL_OBJECT_ID);
    ColumnPresent(idx, 2, COL_NORAD_CAT_ID);
    ColumnPresent(idx, 3, COL_OBJECT_TYPE);
    ColumnPresent(idx, 4, COL_LAUNCH_DATE);
    ColumnPresent(idx, 5, COL_LAUNCH_SITE);
    ColumnPresent(idx, 6, COL_DECAY_DATE);
  }

  lemma ColumnPresent(idx: map<string, int>, i: nat, col: string)
    requires FirstMissing(idx, REQUIRED).None?
    requires i < |REQUIRED| && REQUIRED[i] == col
    ensures col in idx
  {
    assert UpperRoot(col) in idx;
    assert NoLower(col);
    UpperOfUpper(col);
  }

  // ---------------------------------------------------------------------------
  // The row filter

  /** The `LinkedHashMap` built for a kept row, field by field in insertion order. */
  datatype DbRecord = DbRecord(
    objectName: string,
    objectId: string,
    noradCatId: string,
    objectType: string,
    launchDate: string,
    launchSite: string,
    decayDate: string)

  /** The record as the members `toJsonObject` writes, in insertion order. */
  function RecordMembers(r: DbRecord): JsonText.Members {
    [(COL_OBJECT_NAME, r.objectName), (COL_OBJECT_ID, r.objectId), (COL_NORAD_CAT_ID, r.noradCatId),
     (COL_OBJECT_TYPE, r.objectType), (COL_LAUNCH_DATE, r.launchDate), (COL_LAUNCH_SITE, r.launchSite),
     (COL_DECAY_DATE, r.decayDate)]
  }

  /** The positions of the required columns, as `idx.get` returns them. */
  datatype Columns = Columns(
    objectName: int,
    objectId: int,
    noradCatId: int,
    objectType: int,
    launchDate: int,
    launchSite: int,
    decayDate: int)

  function ColumnsOf(idx: map<string, int>): Columns
    requires HasColumns(idx)
  {
    Columns(idx[COL_OBJECT_NAME], idx[COL_OBJECT_ID], idx[COL_NORAD_CAT_ID], idx[COL_OBJECT_TYPE],
            idx[COL_LAUNCH_DATE], idx[COL_LAUNCH_SITE], idx[COL_DECAY_DATE])
  }

  /** The filter and record construction for one parsed row (the loop body of `run`). */
  function KeepRow(row: seq<string>, cols: Columns): (r: Option<DbRecord>)
    ensures r.Some? ==> !IsBlank(Some(r.value.decayDate)) && IsPay(r.value.objectType)
  {
    var decayDate := Get(row, cols.decayDate);
    if IsBlank(Some(decayDate)) then None
    else
      var objectType := Get(row, cols.objectType);
      if !IsPay(SafeTrim(Some(objectType))) then None
      else
        Some(DbRecord(
          Get(row, cols.objectName),
          Get(row, cols.objectId),
          Get(row, cols.noradCatId),
          SafeTrim(Some(objectType)),
          Get(row, cols.launchDate),
          Get(row, cols.launchSite),
          decayDate))
  }

  /** The raw cell of a column, or the empty text when the row is too short. */
  function Cell(row: seq<string>, index: int): string {
    if 0 <= index < |row| then row[index] else []
  }

  /**
    A row is kept exactly when its decay-date cell has a character that is not white
    space and its object-type cell, trimmed, is `PAY` ignoring case; the record then
    holds the trimmed cells.
  */
  lemma KeepRowIff(row: seq<string>, cols: Columns)
    ensures var d, t := Cell(row, cols.decayDate), Cell(row, cols.objectType);
      KeepRow(row, cols).Some? <==>
        (exists k :: 0 <= k < |d| && !IsJavaSpace(d[k])) && UpperRoot(JavaTrim(t)) == "PAY"
  {
    var d, t := Cell(row, cols.decayDate), Cell(row, cols.objectType);
    assert Get(row, cols.decayDate) == JavaTrim(d);
    assert Get(row, cols.objectType) == JavaTrim(t);
    BlankIffSpaces(d);
    JavaTrimIdempotent(d);
    JavaTrimIdempotent(t);
    IsPayIffUpper(JavaTrim(t));
  }

  /** A kept record has a decay date and the payload type, both trimmed. */
  lemma KeptRecordFields(row: seq<string>, cols: Columns)
    requires KeepRow(row, cols).Some?
    ensures var r := KeepRow(row, cols).value;
      r.decayDate != [] && JavaTrim(r.decayDate) == r.decayDate
      && IsPay(r.objectType) && r.objectType == JavaTrim(Cell(row, cols.objectType))
      && r.objectName == JavaTrim(Cell(row, cols.objectName))
  {
    JavaTrimIdempotent(Cell(row, cols.objectType));
  }

  /** The group a record goes to: its trimmed object name, or a placeholder when that is empty. */
  function GroupKey(r: DbRecord): (k: string)
    ensures k != []
  {
    var name := SafeTrim(Some(r.objectName));
    if name == [] then UNKNOWN_OBJECT_NAME else name
  }

  // ---------------------------------------------------------------------------
  // The TreeMap of groups

  /** `String.compareTo` as a strict order: character by character, a proper prefix first. */
  predicate Less(a: string, b: string)
    decreases |a|
  {
    if a == [] then b != []
    else if b == [] then false
    else if a[0] != b[0] then a[0] < b[0]
    else Less(a[1..], b[1..])
  }

  lemma {:induction false} LessIrreflexive(a: string)
    ensures !Less(a, a)
    decreases |a|
  {
    if a != [] {
      LessIrreflexive(a[1..]);
    }
  }

  lemma {:induction false} LessTransitive(a: string, b: string, c: string)
    requires Less(a, b) && Less(b, c)
    ensures Less(a, c)
    decreases |a|
  {
    if a != [] && b != [] && c != [] && a[0] == b[0] && b[0] == c[0] {
      LessTransitive(a[1..], b[1..], c[1..]);
    }
  }

  lemma {:induction false} LessTotal(a: string, b: string)
    ensures a == b || Less(a, b) || Less(b, a)
    decreases |a|
  {
    if a != [] && b != [] && a[0] == b[0] {
      LessTotal(a[1..], b[1..]);
      if a[1..] == b[1..] {
        assert a == [a[0]] + a[1..] && b == [b[0]] + b[1..];
      }
    }
  }

  /** The entries of the `TreeMap`: object name and the records added under it. */
  type Groups = seq<(string, seq<DbRecord>)>

  function Keys(gs: Groups): set<string> {
    if gs == [] then {} else {gs[0].0} + Keys(gs[1..])
  }

  /** Keys strictly increasing: each key is below every later one. */
  predicate Sorted(gs: Groups) {
    gs == [] || ((forall k :: k in Keys(gs[1..]) ==> Less(gs[0].0, k)) && Sorted(gs[1..]))
  }

  predicate NonEmptyGroups(gs: Groups) {
    forall i :: 0 <= i < |gs| ==> gs[i].1 != []
  }

  /** The records under `k`, none when `k` is not a key. */
  function Lookup(gs: Groups, k: string): seq<DbRecord> {
    if gs == [] then [] else if gs[0].0 == k then gs[0].1 else Lookup(gs[1..], k)
  }

  function TotalSize(gs: Groups): nat {
    if gs == [] then 0 else |gs[0].1| + TotalSize(gs[1..])
  }

  /** `grouped.computeIfAbsent(key, k -> new ArrayList<>()).add(rec)` on the sorted entries. */
  function AddToGroup(gs: Groups, key: string, rec: DbRecord): Groups {
    if gs == [] then [(key, [rec])]
    else if gs[0].0 == key then [(key, gs[0].1 + [rec])] + gs[1..]
    else if Less(key, gs[0].0) then [(key, [rec])] + gs
    else [gs[0]] + AddToGroup(gs[1..], key, rec)
  }

  lemma {:induction false} LookupAbsent(gs: Groups, k: string)
    requires k !in Keys(gs)
    ensures Lookup(gs, k) == []
  {
    if gs != [] {
      LookupAbsent(gs[1..], k);
    }
  }

  /** A key below the first key of a sorted list is below all its keys, so it is not one. */
  lemma BelowAll(gs: Groups, key: string)
    requires gs != [] && Sorted(gs) && Less(key, gs[0].0)
    ensures forall k :: k in Keys(gs) ==> Less(key, k)
    ensures key !in Keys(gs)
  {
    forall k | k in Keys(gs) ensures Less(key, k) {
      if k != gs[0].0 {
        LessTransitive(key, gs[0].0, k);
      }
    }
    LessIrreflexive(key);
  }

  /**
    Adding a record keeps the keys sorted, adds `key` to the keys, appends the record to
    the group of `key` and leaves every other group as it was.
  */
  lemma {:induction false} AddToGroupSpec(gs: Groups, key: string, rec: DbRecord)
    requires Sorted(gs)
    ensures var r := AddToGroup(gs, key, rec);
      Sorted(r)
      && Keys(r) == Keys(gs) + {key}
      && (forall k :: Lookup(r, k) == if k == key then Lookup(gs, k) + [rec] else Lookup(gs, k))
      && (NonEmptyGroups(gs) ==> NonEmptyGroups(r))
      && TotalSize(r) == TotalSize(gs) + 1
  {
    var r := AddToGroup(gs, key, rec);
    if gs == [] {
      assert r[1..] == [];
    } else if gs[0].0 == key {
      assert r[1..] == gs[1..];
    } else if Less(key, gs[0].0) {
      assert r[1..] == gs;
      BelowAll(gs, key);
      LookupAbsent(gs, key);
    } else {
      var tail := AddToGroup(gs[1..], key, rec);
      assert r[1..] == tail;
      AddToGroupSpec(gs[1..], key, rec);
      LessTotal(key, gs[0].0);
      assert Less(gs[0].0, key);
    }
  }

  /** The records with group key `k`, in order. */
  function WithKey(recs: seq<DbRecord>, k: string): seq<DbRecord> {
    if recs == [] then []
    else WithKey(recs[..|recs| - 1], k) + (if GroupKey(recs[|recs| - 1]) == k then [recs[|recs| - 1]] else [])
  }

  function KeysOf(recs: seq<DbRecord>): set<string> {
    if recs == [] then {} else KeysOf(recs[..|recs| - 1]) + {GroupKey(recs[|recs| - 1])}
  }

  /** The `TreeMap` after adding the records in order. */
  function GroupAll(recs: seq<DbRecord>): Groups {
    if recs == [] then []
    else
      var last := recs[|recs| - 1];
      AddToGroup(GroupAll(recs[..|recs| - 1]), GroupKey(last), last)
  }

  /**
    Grouping gives sorted, non-empty groups, one per group key of the records, each
    holding exactly that key's records in input order; their sizes add up to the number
    of records.
  */
  lemma {:induction false} GroupAllSpec(recs: seq<DbRecord>)
    ensures var gs := GroupAll(recs);
      Sorted(gs) && NonEmptyGroups(gs) && Keys(gs) == KeysOf(recs)
      && (forall k :: Lookup(gs, k) == WithKey(recs, k))
      && TotalSize(gs) == |recs|
  {
    if recs != [] {
      var init := recs[..|recs| - 1];
      var last := recs[|recs| - 1];
      GroupAllSpec(init);
      AddToGroupSpec(GroupAll(init), GroupKey(last), last);
    }
  }

  // ---------------------------------------------------------------------------
  // run

  /** The records kept from the data lines, in order: blank lines skipped, rows filtered. */
  function LineRecords(line: string, cols: Columns): seq<DbRecord>
  {
    if IsBlank(Some(line)) then []
    else
      var kept := KeepRow(Csv.ParseLine(line, DELIMITER), cols);
      if kept.None? then [] else [kept.value]
  }

  function KeptRecords(lines: seq<string>, cols: Columns): seq<DbRecord>
  {
    if lines == [] then []
    else KeptRecords(lines[..|lines| - 1], cols) + LineRecords(lines[|lines| - 1], cols)
  }

  /** Whether a line counts as a row read: it does unless it is blank. */
  function RowCount(line: string): nat {
    if IsBlank(Some(line)) then 0 else 1
  }

  /** `rowsRead`: the data lines that are not blank. */
  function NonBlankCount(lines: seq<string>): nat {
    if lines == [] then 0 else NonBlankCount(lines[..|lines| - 1]) + RowCount(lines[|lines| - 1])
  }

  /** The groups after the records of one more line are added. */
  function AddLine(gs: Groups, line: string, cols: Columns): Groups {
    var recs := LineRecords(line, cols);
    if recs == [] then gs else AddToGroup(gs, GroupKey(recs[0]), recs[0])
  }

  /** Every kept record has a non-blank decay date and the payload type. */
  lemma {:induction false} KeptRecordsFiltered(lines: seq<string>, cols: Columns)
    ensures forall r :: r in KeptRecords(lines, cols) ==> r.decayDate != [] && IsPay(r.objectType)
    ensures |KeptRecords(lines, cols)| <= NonBlankCount(lines)
  {
    if lines != [] {
      KeptRecordsFiltered(lines[..|lines| - 1], cols);
      var line := lines[|lines| - 1];
      if !IsBlank(Some(line)) && KeepRow(Csv.ParseLine(line, DELIMITER), cols).Some? {
        KeptRecordFields(Csv.ParseLine(line, DELIMITER), cols);
      }
    }
  }

  /** The groups as the JSON writer receives them. */
  function JsonGroups(gs: Groups): (js: seq<JsonText.Group>)
    ensures |js| == |gs|
  {
    if gs == [] then [] else [(gs[0].0, RecordsMembers(gs[0].1))] + JsonGroups(gs[1..])
  }

  function RecordsMembers(recs: seq<DbRecord>): seq<JsonText.Members> {
    if recs == [] then [] else [RecordMembers(recs[0])] + RecordsMembers(recs[1..])
  }

  datatype Output = Output(grouped: Groups, rowsRead: nat, kept: nat, json: string)

  datatype Outcome = Built(output: Output) | Failed(error: DbError)

  /** One data line of the loop in `run`. */
  method ProcessLine(grouped: Groups, rowsRead: nat, kept: nat, line: string, cols: Columns)
    returns (grouped': Groups, rowsRead': nat, kept': nat)
    ensures grouped' == AddLine(grouped, line, cols)
    ensures rowsRead' == rowsRead + RowCount(line)
    ensures kept' == kept + |LineRecords(line, cols)|
  {
    grouped', rowsRead', kept' := grouped, rowsRead, kept;
    if IsBlank(Some(line)) {
      return;
    }
    var row := Csv.ParseDelimitedLine(line, DELIMITER);
    rowsRead' := rowsRead + 1;
    var decayDate := Get(row, cols.decayDate);
    if IsBlank(Some(decayDate)) {
      return;
    }
    var objectType := Get(row, cols.objectType);
    if !IsPay(SafeTrim(Some(objectType))) {
      return;
    }
    var rec := DbRecord(
      Get(row, cols.objectName),
      Get(row, cols.objectId),
      Get(row, cols.noradCatId),
      SafeTrim(Some(objectType)),
      Get(row, cols.launchDate),
      Get(row, cols.launchSite),
      decayDate);
    var objectNameKey := SafeTrim(Some(rec.objectName));
    if objectNameKey == [] {
      objectNameKey := UNKNOWN_OBJECT_NAME;
    }
    grouped' := AddToGroup(grouped, objectNameKey, rec);
    kept' := kept + 1;
  }

  /**
    `run`: an empty or blank first line is an empty CSV; a missing required column is
    reported by name, the first in checking order; otherwise every data line is read,
    the kept records are grouped and the groups written as JSON.
  */
  method Run(lines: seq<string>) returns (r: Outcome)
    ensures lines == [] || IsBlank(Some(lines[0])) ==> r == Failed(EmptyCsv)
    ensures lines != [] && !IsBlank(Some(lines[0])) ==>
      var idx := IndexOf(Csv.ParseLine(lines[0], DELIMITER));
      if FirstMissing(idx, REQUIRED).Some? then r == Failed(FirstMissing(idx, REQUIRED).value)
      else
        HasColumns(idx)
        && r.Built?
        && r.output.grouped == GroupAll(KeptRecords(lines[1..], ColumnsOf(idx)))
        && r.output.rowsRead == NonBlankCount(lines[1..])
        && r.output.kept == |KeptRecords(lines[1..], ColumnsOf(idx))|
        && r.output.json == JsonText.GroupedText(JsonGroups(r.output.grouped))
  {
    if |lines| == 0 || IsBlank(Some(lines[0])) {
      return Failed(EmptyCsv);
    }
    var header := Csv.ParseDelimitedLine(lines[0], DELIMITER);
    var idx := IndexMap(header);
    var missing := FirstMissing(idx, REQUIRED);
    if missing.Some? {
      return Failed(missing.value);
    }
    ColumnsPresent(idx);
    var grouped, rowsRead, kept := ReadRows(lines[1..], ColumnsOf(idx));
    var json := JsonText.ToJsonGrouped(JsonGroups(grouped));
    r := Built(Output(grouped, rowsRead, kept, json));
  }

  /** The loop of `run` over the data lines. */
  method ReadRows(lines: seq<string>, cols: Columns) returns (grouped: Groups, rowsRead: nat, kept: nat)
    ensures grouped == GroupAll(KeptRecords(lines, cols))
    ensures rowsRead == NonBlankCount(lines)
    ensures kept == |KeptRecords(lines, cols)|
  {
    grouped, rowsRead, kept := [], 0, 0;
    var n := 0;
    while n < |lines|
      invariant 0 <= n <= |lines|
      invariant grouped == GroupAll(KeptRecords(lines[..n], cols))
      invariant rowsRead == NonBlankCount(lines[..n])
      invariant kept == |KeptRecords(lines[..n], cols)|
    {
      grouped, rowsRead, kept := ReadRow(lines, n, cols, grouped, rowsRead, kept);
      n := n + 1;
    }
    assert lines[..n] == lines;
  }

  /** Line `n` of the data lines, with the state the loop holds after the lines before it. */
  method ReadRow(lines: seq<string>, n: nat, cols: Columns, grouped: Groups, rowsRead: nat, kept: nat)
    returns (grouped': Groups, rowsRead': nat, kept': nat)
    requires n < |lines|
    requires grouped == GroupAll(KeptRecords(lines[..n], cols))
    requires rowsRead == NonBlankCount(lines[..n])
    requires kept == |KeptRecords(lines[..n], cols)|
    ensures grouped' == GroupAll(KeptRecords(lines[..n + 1], cols))
    ensures rowsRead' == NonBlankCount(lines[..n + 1])
    ensures kept' == |KeptRecords(lines[..n + 1], cols)|
  {
    grouped', rowsRead', kept' := ProcessLine(grouped, rowsRead, kept, lines[n], cols);
    RowsStep(lines, n, cols);
  }

  /** What one more data line adds to the records, the count of rows read and the groups. */
  lemma RowsStep(lines: seq<string>, n: nat, cols: Columns)
    requires n < |lines|
    ensures KeptRecords(lines[..n + 1], cols) == KeptRecords(lines[..n], cols) + LineRecords(lines[n], cols)
    ensures NonBlankCount(lines[..n + 1]) == NonBlankCount(lines[..n]) + RowCount(lines[n])
    ensures GroupAll(KeptRecords(lines[..n + 1], cols)) == AddLine(GroupAll(KeptRecords(lines[..n], cols)), lines[n], cols)
  {
    var all := lines[..n + 1];
    assert all[..n] == lines[..n] && all[n] == lines[n];
    var recs := LineRecords(lines[n], cols);
    var prev := KeptRecords(lines[..n], cols);
    if recs == [] {
      assert prev + recs == prev;
    } else {
      assert (prev + recs)[..|prev + recs| - 1] == prev;
    }
  }

  /** `kept` is the number of records across all groups, and the groups are sorted. */
  lemma KeptIsTotal(recs: seq<DbRecord>)
    ensures TotalSize(GroupAll(recs)) == |recs| && Sorted(GroupAll(recs))
  {
    GroupAllSpec(recs);
  }

  /** The file `run` writes reads back as the groups, records and fields it was built from. */
  lemma OutputReadsBack(gs: Groups)
    ensures JsonText.ReadGrouped(JsonText.GroupedText(JsonGroups(gs))) == Some((JsonGroups(gs), ""))
  {
    JsonText.GroupedRoundTrip(JsonGroups(gs));
  }
}
