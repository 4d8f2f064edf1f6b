/**
 * `create_file_tree_for_time_range` from `src/fuse/src/lib.rs`: for every year
 * of the range, a directory named by the year, holding the twelve month
 * directories `01`..`12`, each holding one directory per day of that month
 * (`01`..`28`/`29`/`30`/`31`), each holding the 1440 minute files `HH-MM`
 * whose bounds cover that minute, inclusive, to the nanosecond.
 *
 * Each loop level of the source is a method. The shape a method builds is
 * stated over a key range `[lo, hi)` of the arena: every node the shape names
 * lies in that range, so appending nodes and changing keys below `lo` leaves
 * the shape intact (the `...Frame` lemmas).
 */
module TimeTree {
  import opened Wrappers
  import opened Text
  import opened Children
  import opened Calendar
  import opened Fuse

  const MinutesPerDay: nat := 1440

  /** `format!("{:02}-{:02}", hour, minute)`. */
  function MinuteName(hour: nat, minute: nat): string {
    Pad2(hour) + "-" + Pad2(minute)
  }

  /** The name of the `i`-th minute of a day. */
  function MinuteNameAt(i: nat): string {
    MinuteName(i / 60, i % 60)
  }

  /** The `i`-th minute of a date, from its first nanosecond to just under a minute later. */
  function MinuteBoundsAt(y: int, m: int, d: int, i: nat): (b: TimeBounds)
    requires 1 <= m <= 12
    ensures b.endTime - b.startTime == NanosPerMinute - 1
  {
    var start := MinuteStart(y, m, d, i / 60, i % 60);
    TimeBounds(start, start + NanosPerMinute - 1)
  }

  /** Minute names are ordered as the minutes are. */
  lemma MinuteNameOrdered(i: nat, j: nat)
    requires i < j < MinutesPerDay
    ensures Less(MinuteNameAt(i), MinuteNameAt(j))
  {
    if i / 60 < j / 60 {
      Pad2Ordered(i / 60, j / 60);
      Pad2Digits(i / 60);
      Pad2Digits(j / 60);
      LessExtend(Pad2(i / 60), Pad2(j / 60), "-" + Pad2(i % 60), "-" + Pad2(j % 60));
      assert MinuteNameAt(i) == Pad2(i / 60) + ("-" + Pad2(i % 60));
      assert MinuteNameAt(j) == Pad2(j / 60) + ("-" + Pad2(j % 60));
    } else {
      Pad2Ordered(i % 60, j % 60);
      LessCommonPrefix(Pad2(i / 60) + "-", Pad2(i % 60), Pad2(j % 60));
    }
  }

  /** Consecutive minute files of a day leave neither gap nor overlap. */
  lemma MinutesTile(y: int, m: int, d: int, i: nat)
    requires IsValidDate(y, m, d) && i + 1 < MinutesPerDay
    ensures MinuteBoundsAt(y, m, d, i).endTime + 1 == MinuteBoundsAt(y, m, d, i + 1).startTime
  {
    if i % 60 == 59 {
      assert (i + 1) / 60 == i / 60 + 1 && (i + 1) % 60 == 0;
    } else {
      assert (i + 1) / 60 == i / 60 && (i + 1) % 60 == i % 60 + 1;
    }
  }

  /** The minute files of a day span exactly that day, and the next date's first minute follows its last. */
  lemma DaysTile(y: int, m: int, d: int)
    requires IsValidDate(y, m, d)
    ensures MinuteBoundsAt(y, m, d, 0).startTime == DaysFromCivil(y, m, d) * NanosPerDay
    ensures MinuteBoundsAt(y, m, d, MinutesPerDay - 1).endTime + 1 == (DaysFromCivil(y, m, d) + 1) * NanosPerDay
    ensures var (y', m', d') := NextDate(y, m, d);
      1 <= m' <= 12 &&
      MinuteBoundsAt(y, m, d, MinutesPerDay - 1).endTime + 1 == MinuteBoundsAt(y', m', d', 0).startTime
  {
    NextDateIsNextDay(y, m, d);
  }

  // ---------------------------------------------------------------------------
  // Shapes

  ghost predicate IsMinuteFile(s: seq<File>, k: nat, y: int, m: int, d: int, i: nat, lo: nat, hi: nat)
    requires 1 <= m <= 12
  {
    && lo <= k < hi <= |s|
    && s[k].name == MinuteNameAt(i)
    && s[k].fileType == TimeFile(MinuteBoundsAt(y, m, d, i))
    && s[k].children == []
  }

  /** A day directory with its 1440 minute files, in minute order. */
  ghost predicate IsDayDir(s: seq<File>, k: nat, y: int, m: int, d: nat, lo: nat, hi: nat)
    requires 1 <= m <= 12
  {
    && lo <= k < hi <= |s|
    && s[k].name == Pad2(d) && s[k].fileType == Directory
    && |s[k].children| == MinutesPerDay
    && forall i :: 0 <= i < MinutesPerDay ==>
         s[k].children[i].name == MinuteNameAt(i) && IsMinuteFile(s, s[k].children[i].key, y, m, d, i, k + 1, hi)
  }

  /** A month directory with one day directory per day of the month, in day order. */
  ghost predicate IsMonthDir(s: seq<File>, k: nat, y: int, m: int, lo: nat, hi: nat)
    requires 1 <= m <= 12
  {
    && lo <= k < hi <= |s|
    && s[k].name == Pad2(m) && s[k].fileType == Directory
    && |s[k].children| == DaysInMonth(y, m)
    && forall i :: 0 <= i < |s[k].children| ==>
         s[k].children[i].name == Pad2(i + 1) && IsDayDir(s, s[k].children[i].key, y, m, i + 1, k + 1, hi)
  }

  /** A year directory with its twelve month directories, in month order. */
  ghost predicate IsYearDir(s: seq<File>, k: nat, y: int, lo: nat, hi: nat) {
    && lo <= k < hi <= |s|
    && s[k].name == IntToDecimal(y) && s[k].fileType == Directory
    && |s[k].children| == 12
    && forall i :: 0 <= i < 12 ==>
         s[k].children[i].name == Pad2(i + 1) && IsMonthDir(s, s[k].children[i].key, y, i + 1, k + 1, hi)
  }

  lemma DayDirFrame(s: seq<File>, t: seq<File>, k: nat, y: int, m: int, d: nat, lo: nat, hi: nat, lo': nat, hi': nat)
    requires 1 <= m <= 12
    requires IsDayDir(s, k, y, m, d, lo, hi)
    requires lo' <= lo && hi <= hi' <= |t|
    requires forall j :: lo <= j < hi ==> t[j] == s[j]
    ensures IsDayDir(t, k, y, m, d, lo', hi')
  {
    forall i | 0 <= i < MinutesPerDay
      ensures IsMinuteFile(t, t[k].children[i].key, y, m, d, i, k + 1, hi')
    {
      assert IsMinuteFile(s, s[k].children[i].key, y, m, d, i, k + 1, hi);
    }
  }

  lemma MonthDirFrame(s: seq<File>, t: seq<File>, k: nat, y: int, m: int, lo: nat, hi: nat, lo': nat, hi': nat)
    requires 1 <= m <= 12
    requires IsMonthDir(s, k, y, m, lo, hi)
    requires lo' <= lo && hi <= hi' <= |t|
    requires forall j :: lo <= j < hi ==> t[j] == s[j]
    ensures IsMonthDir(t, k, y, m, lo', hi')
  {
    forall i | 0 <= i < |t[k].children|
      ensures IsDayDir(t, t[k].children[i].key, y, m, i + 1, k + 1, hi')
    {
      DayDirFrame(s, t, s[k].children[i].key, y, m, i + 1, k + 1, hi, k + 1, hi');
    }
  }

  lemma YearDirFrame(s: seq<File>, t: seq<File>, k: nat, y: int, lo: nat, hi: nat, lo': nat, hi': nat)
    requires IsYearDir(s, k, y, lo, hi)
    requires lo' <= lo && hi <= hi' <= |t|
    requires forall j :: lo <= j < hi ==> t[j] == s[j]
    ensures IsYearDir(t, k, y, lo', hi')
  {
    forall i | 0 <= i < 12
      ensures IsMonthDir(t, t[k].children[i].key, y, i + 1, k + 1, hi')
    {
      MonthDirFrame(s, t, s[k].children[i].key, y, i + 1, k + 1, hi, k + 1, hi');
    }
  }

  // ---------------------------------------------------------------------------
  // Partially built directories, as the loops leave them

  /** A day directory whose first `n` minute files exist and are the last nodes created. */
  ghost predicate DayPrefix(s: seq<File>, k: nat, y: int, m: int, d: int, n: nat)
    requires 1 <= m <= 12
  {
    && k + 1 + n == |s|
    && |s[k].children| == n
    && forall i :: 0 <= i < n ==>
         s[k].children[i] == Entry(MinuteNameAt(i), k + 1 + i)
         && IsMinuteFile(s, k + 1 + i, y, m, d, i, k + 1, |s|)
  }

  lemma DayPrefixGrows(s: seq<File>, t: seq<File>, k: nat, y: int, m: int, d: int, n: nat)
    requires 1 <= m <= 12
    requires DayPrefix(s, k, y, m, d, n)
    requires |t| == |s| + 1
    requires forall j :: 0 <= j < |s| && j != k ==> t[j] == s[j]
    requires t[k].children == s[k].children + [Entry(MinuteNameAt(n), |s|)]
    requires t[|s|].name == MinuteNameAt(n) && t[|s|].fileType == TimeFile(MinuteBoundsAt(y, m, d, n))
    requires t[|s|].children == []
    ensures DayPrefix(t, k, y, m, d, n + 1)
  {
    forall i | 0 <= i < n + 1
      ensures t[k].children[i] == Entry(MinuteNameAt(i), k + 1 + i)
      ensures IsMinuteFile(t, k + 1 + i, y, m, d, i, k + 1, |t|)
    {
      if i < n {
        assert IsMinuteFile(s, k + 1 + i, y, m, d, i, k + 1, |s|);
      }
    }
  }

  /** A month directory holding the day directories of its first `n` days (or all of them). */
  ghost predicate MonthPrefix(s: seq<File>, k: nat, y: int, m: int, n: nat)
    requires 1 <= m <= 12
  {
    && k < |s|
    && |s[k].children| == (if n < DaysInMonth(y, m) then n else DaysInMonth(y, m))
    && forall i :: 0 <= i < |s[k].children| ==>
         s[k].children[i].name == Pad2(i + 1) && IsDayDir(s, s[k].children[i].key, y, m, i + 1, k + 1, |s|)
  }

  /** An existing day directory of a month prefix survives the month growing. */
  lemma MonthPrefixKeepsDay(s: seq<File>, t: seq<File>, k: nat, y: int, m: int, n: nat, i: nat)
    requires 1 <= m <= 12
    requires MonthPrefix(s, k, y, m, n) && n < DaysInMonth(y, m) && i < n
    requires |s| <= |t| && k < |s|
    requires forall j :: 0 <= j < |s| && j != k ==> t[j] == s[j]
    requires |t[k].children| > i && t[k].children[i] == s[k].children[i]
    ensures t[k].children[i].name == Pad2(i + 1)
    ensures IsDayDir(t, t[k].children[i].key, y, m, i + 1, k + 1, |t|)
  {
    var c := s[k].children[i];
    assert c.name == Pad2(i + 1) && IsDayDir(s, c.key, y, m, i + 1, k + 1, |s|);
    DayDirFrame(s, t, c.key, y, m, i + 1, k + 1, |s|, k + 1, |t|);
  }

  lemma MonthPrefixGrows(s: seq<File>, t: seq<File>, k: nat, y: int, m: int, n: nat, dayKey: nat)
    requires 1 <= m <= 12
    requires MonthPrefix(s, k, y, m, n) && n < DaysInMonth(y, m)
    requires |s| <= |t| && k < |s| <= dayKey
    requires forall j :: 0 <= j < |s| && j != k ==> t[j] == s[j]
    requires t[k].children == s[k].children + [Entry(Pad2(n + 1), dayKey)]
    requires IsDayDir(t, dayKey, y, m, n + 1, dayKey, |t|)
    ensures MonthPrefix(t, k, y, m, n + 1)
  {
    assert |s[k].children| == n && |t[k].children| == n + 1;
    forall i | 0 <= i < n + 1
      ensures t[k].children[i].name == Pad2(i + 1)
      ensures IsDayDir(t, t[k].children[i].key, y, m, i + 1, k + 1, |t|)
    {
      if i < n {
        MonthPrefixKeepsDay(s, t, k, y, m, n, i);
      } else {
        DayDirFrame(t, t, dayKey, y, m, n + 1, dayKey, |t|, k + 1, |t|);
      }
    }
  }

  /** A year directory holding the month directories of its first `n` months. */
  ghost predicate YearPrefix(s: seq<File>, k: nat, y: int, n: nat)
  {
    && k < |s| && n <= 12
    && |s[k].children| == n
    && forall i :: 0 <= i < n ==>
         s[k].children[i].name == Pad2(i + 1) && IsMonthDir(s, s[k].children[i].key, y, i + 1, k + 1, |s|)
  }

  /** An existing month directory of a year prefix survives the year growing. */
  lemma YearPrefixKeepsMonth(s: seq<File>, t: seq<File>, k: nat, y: int, n: nat, i: nat)
    requires YearPrefix(s, k, y, n) && i < n
    requires |s| <= |t| && k < |s|
    requires forall j :: 0 <= j < |s| && j != k ==> t[j] == s[j]
    requires |t[k].children| > i && t[k].children[i] == s[k].children[i]
    ensures t[k].children[i].name == Pad2(i + 1)
    ensures IsMonthDir(t, t[k].children[i].key, y, i + 1, k + 1, |t|)
  {
    var c := s[k].children[i];
    assert c.name == Pad2(i + 1) && IsMonthDir(s, c.key, y, i + 1, k + 1, |s|);
    MonthDirFrame(s, t, c.key, y, i + 1, k + 1, |s|, k + 1, |t|);
  }

  lemma YearPrefixGrows(s: seq<File>, t: seq<File>, k: nat, y: int, n: nat, monthKey: nat)
    requires YearPrefix(s, k, y, n) && n < 12
    requires |s| <= |t| && k < |s| <= monthKey
    requires forall j :: 0 <= j < |s| && j != k ==> t[j] == s[j]
    requires t[k].children == s[k].children + [Entry(Pad2(n + 1), monthKey)]
    requires IsMonthDir(t, monthKey, y, n + 1, monthKey, |t|)
    ensures YearPrefix(t, k, y, n + 1)
  {
    assert |s[k].children| == n && |t[k].children| == n + 1;
    forall i | 0 <= i < n + 1
      ensures t[k].children[i].name == Pad2(i + 1)
      ensures IsMonthDir(t, t[k].children[i].key, y, i + 1, k + 1, |t|)
    {
      if i < n {
        YearPrefixKeepsMonth(s, t, k, y, n, i);
      } else {
        NewMonthInYear(t, k, y, n + 1, monthKey);
      }
    }
  }

  /** The month directory just built is a month of the year directory above it. */
  lemma NewMonthInYear(t: seq<File>, k: nat, y: int, m: int, monthKey: nat)
    requires 1 <= m <= 12 && k < monthKey < |t|
    requires |t[k].children| == m && t[k].children[m - 1] == Entry(Pad2(m), monthKey)
    requires IsMonthDir(t, monthKey, y, m, monthKey, |t|)
    ensures t[k].children[m - 1].name == Pad2(m)
    ensures IsMonthDir(t, t[k].children[m - 1].key, y, m, k + 1, |t|)
  {
    MonthDirFrame(t, t, monthKey, y, m, monthKey, |t|, k + 1, |t|);
  }

  // ---------------------------------------------------------------------------
  // The loops

  /** The body of the innermost loop: the minute file `hour:minute` of a day directory. */
  method CreateMinuteFile(tree: FileTree, dayKey: FileKey, y: int, m: int, d: nat, hour: nat, minute: nat)
    requires tree.Valid() && dayKey < |tree.sm|
    requires IsValidDate(y, m, d) && hour < 24 && minute < 60
    requires DayPrefix(tree.sm, dayKey, y, m, d, 60 * hour + minute)
    modifies tree
    ensures tree.Valid()
    ensures |tree.sm| == old(|tree.sm|) + 1
    ensures forall j :: 0 <= j < old(|tree.sm|) && j != dayKey ==> tree.sm[j] == old(tree.sm[j])
    ensures tree.sm[dayKey] == old(tree.sm[dayKey]).(children := tree.sm[dayKey].children)
    ensures DayPrefix(tree.sm, dayKey, y, m, d, 60 * hour + minute + 1)
  {
    var n := 60 * hour + minute;
    assert n / 60 == hour && n % 60 == minute;
    var filename := MinuteName(hour, minute);
    var timeBoundStart := MinuteStart(y, m, d, hour, minute);
    var timeBounds := TimeBounds(timeBoundStart, timeBoundStart + (NanosPerMinute - 1));
    assert filename == MinuteNameAt(n) && timeBounds == MinuteBoundsAt(y, m, d, n);
    ghost var s := tree.sm;
    forall i | 0 <= i < n ensures Less(s[dayKey].children[i].name, filename) {
      MinuteNameOrdered(i, n);
    }
    LessIrreflexive(filename);
    InsertAtEnd(s[dayKey].children, filename, |s|);
    var _ := tree.CreateFile(filename, timeBounds, Some(dayKey));
    DayPrefixGrows(s, tree.sm, dayKey, y, m, d, n);
  }

  /** The hour and minute loops: one day directory under `monthKey`, with its 1440 minute files. */
  method PopulateDay(tree: FileTree, monthKey: FileKey, y: int, m: int, d: nat) returns (dayKey: FileKey)
    requires tree.Valid() && monthKey < |tree.sm|
    requires IsValidDate(y, m, d)
    requires Get(tree.sm[monthKey].children, Pad2(d)).None?
    modifies tree
    ensures tree.Valid()
    ensures dayKey == old(|tree.sm|) && |tree.sm| == dayKey + 1 + MinutesPerDay
    ensures forall j :: 0 <= j < old(|tree.sm|) && j != monthKey ==> tree.sm[j] == old(tree.sm[j])
    ensures tree.sm[monthKey] ==
      old(tree.sm[monthKey]).(children := Insert(old(tree.sm[monthKey].children), Pad2(d), dayKey))
    ensures IsDayDir(tree.sm, dayKey, y, m, d, dayKey, |tree.sm|)
  {
    dayKey := tree.CreateDirectory(Pad2(d), Some(monthKey));
    ghost var s0 := tree.sm;
    var hour := 0;
    while hour <= 23
      invariant 0 <= hour <= 24
      invariant tree.Valid() && dayKey < |tree.sm|
      invariant tree.sm[..dayKey] == s0[..dayKey]
      invariant tree.sm[dayKey] == s0[dayKey].(children := tree.sm[dayKey].children)
      invariant DayPrefix(tree.sm, dayKey, y, m, d, 60 * hour)
    {
      var minute := 0;
      while minute <= 59
        invariant 0 <= minute <= 60
        invariant tree.Valid() && dayKey < |tree.sm|
        invariant tree.sm[..dayKey] == s0[..dayKey]
        invariant tree.sm[dayKey] == s0[dayKey].(children := tree.sm[dayKey].children)
        invariant DayPrefix(tree.sm, dayKey, y, m, d, 60 * hour + minute)
      {
        CreateMinuteFile(tree, dayKey, y, m, d, hour, minute);
        minute := minute + 1;
      }
      hour := hour + 1;
    }
    assert forall j :: 0 <= j < dayKey ==> tree.sm[j] == s0[..dayKey][j];
  }

  /** The day loop: one month directory under `yearKey`, with a directory per valid day. */
  method PopulateMonth(tree: FileTree, yearKey: FileKey, y: int, m: int) returns (monthKey: FileKey)
    requires tree.Valid() && yearKey < |tree.sm|
    requires 1 <= m <= 12
    requires Get(tree.sm[yearKey].children, Pad2(m)).None?
    modifies tree
    ensures tree.Valid()
    ensures monthKey == old(|tree.sm|) && monthKey < |tree.sm|
    ensures forall j :: 0 <= j < old(|tree.sm|) && j != yearKey ==> tree.sm[j] == old(tree.sm[j])
    ensures tree.sm[yearKey] ==
      old(tree.sm[yearKey]).(children := Insert(old(tree.sm[yearKey].children), Pad2(m), monthKey))
    ensures IsMonthDir(tree.sm, monthKey, y, m, monthKey, |tree.sm|)
  {
    monthKey := tree.CreateDirectory(Pad2(m), Some(yearKey));
    ghost var yearAfter := tree.sm[yearKey];
    var day := 1;
    while day <= 31
      invariant 1 <= day <= 32
      invariant tree.Valid() && monthKey < |tree.sm|
      invariant forall j :: 0 <= j < monthKey && j != yearKey ==> tree.sm[j] == old(tree.sm[j])
      invariant tree.sm[yearKey] == yearAfter
      invariant tree.sm[monthKey].name == Pad2(m) && tree.sm[monthKey].fileType == Directory
      invariant MonthPrefix(tree.sm, monthKey, y, m, day - 1)
    {
      if IsValidDate(y, m, day) {
        ghost var s := tree.sm;
        NumberedGoesLast(s[monthKey].children, day, |s|);
        var dayKey := PopulateDay(tree, monthKey, y, m, day);
        MonthPrefixGrows(s, tree.sm, monthKey, y, m, day - 1, dayKey);
      }
      day := day + 1;
    }
  }

  /**
   * Entries named `01` up to `n - 1` in order: the name `n` is not among them,
   * and inserting it appends it.
   */
  lemma NumberedGoesLast(c: seq<Entry>, n: nat, key: nat)
    requires 1 <= n < 100 && |c| == n - 1
    requires forall i :: 0 <= i < |c| ==> c[i].name == Pad2(i + 1)
    ensures Get(c, Pad2(n)).None?
    ensures Insert(c, Pad2(n), key) == c + [Entry(Pad2(n), key)]
  {
    forall i | 0 <= i < |c| ensures Less(c[i].name, Pad2(n)) && c[i].name != Pad2(n) {
      Pad2Ordered(i + 1, n);
      LessIrreflexive(Pad2(n));
    }
    InsertAtEnd(c, Pad2(n), key);
  }

  /** The month loop: one year directory under the root, with its twelve months. */
  method PopulateYear(tree: FileTree, y: int) returns (yearKey: FileKey)
    requires tree.Valid()
    requires Get(tree.sm[0].children, IntToDecimal(y)).None?
    modifies tree
    ensures tree.Valid()
    ensures yearKey == old(|tree.sm|) && yearKey < |tree.sm|
    ensures forall j :: 1 <= j < old(|tree.sm|) ==> tree.sm[j] == old(tree.sm[j])
    ensures tree.sm[0] ==
      old(tree.sm[0]).(children := Insert(old(tree.sm[0].children), IntToDecimal(y), yearKey))
    ensures IsYearDir(tree.sm, yearKey, y, yearKey, |tree.sm|)
  {
    yearKey := tree.CreateDirectory(IntToDecimal(y), tree.GetRoot());
    ghost var rootAfter := tree.sm[0];
    var month := 1;
    while month <= 12
      invariant 1 <= month <= 13
      invariant tree.Valid() && yearKey < |tree.sm|
      invariant forall j :: 1 <= j < yearKey ==> tree.sm[j] == old(tree.sm[j])
      invariant tree.sm[0] == rootAfter
      invariant tree.sm[yearKey].name == IntToDecimal(y) && tree.sm[yearKey].fileType == Directory
      invariant YearPrefix(tree.sm, yearKey, y, month - 1)
    {
      ghost var s := tree.sm;
      NumberedGoesLast(s[yearKey].children, month, |s|);
      var monthKey := PopulateMonth(tree, yearKey, y, month);
      YearPrefixGrows(s, tree.sm, yearKey, y, month - 1, monthKey);
      month := month + 1;
    }
  }

  // ---------------------------------------------------------------------------
  // The year loop

  /** The names a children map holds. */
  ghost function Names(c: seq<Entry>): set<string> {
    set i | 0 <= i < |c| :: c[i].name
  }

  /** The names of the years `from` up to, not including, `to`. */
  ghost function YearNames(from: int, to: int): set<string> {
    set y | from <= y < to :: IntToDecimal(y)
  }

  lemma NamesAfterInsert(c: seq<Entry>, name: string, key: nat)
    requires Sorted(c) && Get(c, name).None?
    ensures Names(Insert(c, name, key)) == Names(c) + {name}
  {
    var c' := Insert(c, name, key);
    InsertEntries(c, name, key);
    assert Names(c') <= Names(c) + {name} by {
      forall n | n in Names(c') ensures n in Names(c) + {name} {
        var i :| 0 <= i < |c'| && c'[i].name == n;
        assert c'[i] in c';
        if c'[i] != Entry(name, key) {
          var j :| 0 <= j < |c| && c[j] == c'[i];
        }
      }
    }
    assert Names(c) + {name} <= Names(c') by {
      forall n | n in Names(c) + {name} ensures n in Names(c') {
        var r := Get(c', n);
        if n != name {
          var j :| 0 <= j < |c| && c[j].name == n;
          GetAfterInsert(c, name, key, n);
        }
        var i :| 0 <= i < |c'| && c'[i] == Entry(n, r.value);
      }
    }
  }

  /**
   * The root holds exactly the year directories `from` up to, not including, `to`,
   * each complete and made of nodes other than the root.
   */
  ghost predicate YearsBuilt(s: seq<File>, from: int, to: int)
    requires 1 <= |s|
  {
    && Names(s[0].children) == YearNames(from, to)
    && forall y :: from <= y < to ==>
         Get(s[0].children, IntToDecimal(y)).Some?
         && IsYearDir(s, Get(s[0].children, IntToDecimal(y)).value, y, 1, |s|)
  }

  /** A year not yet built has no directory under the root. */
  lemma YearNotBuilt(s: seq<File>, from: int, year: int)
    requires 1 <= |s| && YearsBuilt(s, from, year)
    ensures Get(s[0].children, IntToDecimal(year)).None?
  {
    if IntToDecimal(year) in Names(s[0].children) {
      var y :| from <= y < year && IntToDecimal(y) == IntToDecimal(year);
      IntToDecimalInjective(y, year);
    }
  }

  lemma YearsBuiltGrows(s: seq<File>, t: seq<File>, from: int, year: int, yearKey: nat)
    requires 1 <= |s| && WellFormed(s) && from <= year
    requires YearsBuilt(s, from, year)
    requires |s| <= yearKey < |t|
    requires forall j :: 1 <= j < |s| ==> t[j] == s[j]
    requires t[0].children == Insert(s[0].children, IntToDecimal(year), yearKey)
    requires IsYearDir(t, yearKey, year, yearKey, |t|)
    ensures YearsBuilt(t, from, year + 1)
  {
    assert NodeOk(s, 0);
    YearNotBuilt(s, from, year);
    NamesAfterInsert(s[0].children, IntToDecimal(year), yearKey);
    YearNamesGrow(from, year);
    forall y | from <= y < year + 1
      ensures Get(t[0].children, IntToDecimal(y)).Some?
      ensures IsYearDir(t, Get(t[0].children, IntToDecimal(y)).value, y, 1, |t|)
    {
      YearKept(s, t, from, year, yearKey, y);
    }
  }

  lemma YearNamesGrow(from: int, year: int)
    requires from <= year
    ensures YearNames(from, year + 1) == YearNames(from, year) + {IntToDecimal(year)}
  {
    forall n | n in YearNames(from, year + 1) ensures n in YearNames(from, year) + {IntToDecimal(year)} {
      var y :| from <= y < year + 1 && IntToDecimal(y) == n;
      if y < year {
        assert IntToDecimal(y) in YearNames(from, year);
      }
    }
  }

  lemma YearKept(s: seq<File>, t: seq<File>, from: int, year: int, yearKey: nat, y: int)
    requires 1 <= |s| && Sorted(s[0].children) && from <= y <= year
    requires YearsBuilt(s, from, year)
    requires |s| <= yearKey < |t|
    requires forall j :: 1 <= j < |s| ==> t[j] == s[j]
    requires t[0].children == Insert(s[0].children, IntToDecimal(year), yearKey)
    requires IsYearDir(t, yearKey, year, yearKey, |t|)
    ensures Get(t[0].children, IntToDecimal(y)).Some?
    ensures IsYearDir(t, Get(t[0].children, IntToDecimal(y)).value, y, 1, |t|)
  {
    GetAfterInsert(s[0].children, IntToDecimal(year), yearKey, IntToDecimal(y));
    if y < year {
      if IntToDecimal(y) == IntToDecimal(year) {
        IntToDecimalInjective(y, year);
      }
      YearDirFrame(s, t, Get(s[0].children, IntToDecimal(y)).value, y, 1, |s|, 1, |t|);
    } else {
      YearDirFrame(t, t, yearKey, year, yearKey, |t|, 1, |t|);
    }
  }

  const UsizeLimit: int := 0x1_0000_0000_0000_0000

  /** The whole minutes in a non-negative span, and the nanoseconds that remain. */
  lemma MinutesIn(span: int)
    requires span >= 0
    ensures (span / NanosPerMinute) * NanosPerMinute <= span < (span / NanosPerMinute + 1) * NanosPerMinute
  {
    assert span == (span / NanosPerMinute) * NanosPerMinute + span % NanosPerMinute;
  }

  /** A whole-minute count that fits under `bound` minutes. */
  lemma MinutesBelow(span: int, bound: int)
    requires 0 <= span < bound * NanosPerMinute
    ensures span / NanosPerMinute < bound
  {
    MinutesIn(span);
    assert (span / NanosPerMinute) * NanosPerMinute < bound * NanosPerMinute;
  }

  /**
   * `(end_time - start_time).num_minutes() as usize`: the capacity hint the tree
   * is created with. It counts the whole minutes of the range; a range that ends
   * a minute or more before it starts has a negative count, which wraps to just
   * under `2^64`.
   */
  function ExpectedNumberOfFiles(startTime: int, endTime: int): (n: nat)
    ensures n < UsizeLimit
  {
    var span := endTime - startTime;
    var minutes := if span >= 0 then span / NanosPerMinute else -((-span) / NanosPerMinute);
    minutes % UsizeLimit
  }

  /**
   * The hint is the range's whole minutes when it fits in 64 bits, zero for a
   * range reversed by less than a minute, and `2^64` minus the minutes for a
   * range reversed by more.
   */
  lemma ExpectedNumberOfFilesCounts(startTime: int, endTime: int)
    ensures var n, span := ExpectedNumberOfFiles(startTime, endTime), endTime - startTime;
            0 <= span < UsizeLimit * NanosPerMinute ==> n * NanosPerMinute <= span < (n + 1) * NanosPerMinute
    ensures var n, span := ExpectedNumberOfFiles(startTime, endTime), endTime - startTime;
            -NanosPerMinute < span < 0 ==> n == 0
    ensures var n, span := ExpectedNumberOfFiles(startTime, endTime), endTime - startTime;
            -UsizeLimit * NanosPerMinute < span <= -NanosPerMinute ==> n == UsizeLimit - (-span) / NanosPerMinute
  {
    var span := endTime - startTime;
    if 0 <= span < UsizeLimit * NanosPerMinute {
      MinutesIn(span);
      MinutesBelow(span, UsizeLimit);
    } else if -UsizeLimit * NanosPerMinute < span <= -NanosPerMinute {
      MinutesBelow(-span, UsizeLimit);
      assert (-span) / NanosPerMinute >= 1;
    }
  }

  /**
   * Whether `FileTree::new` can reserve the capacity hint: a range ending a
   * minute or more before it starts asks for nearly `2^64` slots, and the
   * allocation panics.
   */
  predicate CapacityFits(startTime: int, endTime: int) {
    endTime - startTime > -NanosPerMinute
  }

  /**
   * `create_file_tree_for_time_range`: the root holds one directory per calendar
   * year from the start's year to the end's year, inclusive, and nothing else;
   * each is complete down to the minute files.
   */
  method CreateFileTreeForTimeRange(startTime: int, endTime: int) returns (fileTree: FileTree)
    requires CapacityFits(startTime, endTime)
    ensures fresh(fileTree) && fileTree.Valid()
    ensures YearsBuilt(fileTree.sm, YearOf(startTime), YearOf(endTime) + 1)
  {
    fileTree := new FileTree(ExpectedNumberOfFiles(startTime, endTime));
    var first := YearOf(startTime);
    var last := YearOf(endTime);
    var year := first;
    while year <= last
      invariant fresh(fileTree) && fileTree.Valid()
      invariant first <= year
      invariant year <= last + 1 || year == first
      invariant YearsBuilt(fileTree.sm, first, year)
      decreases last + 1 - year
    {
      ghost var s := fileTree.sm;
      YearNotBuilt(s, first, year);
      var yearFile := PopulateYear(fileTree, year);
      YearsBuiltGrows(s, fileTree.sm, first, year, yearFile);
      year := year + 1;
    }
    if year != last + 1 {
      assert YearNames(first, year) == YearNames(first, last + 1) == {};
    }
  }
}
