/**
 * The date classifier of `processMailbox`: where a message goes, given its
 * envelope date already converted to local time, the local month sampled
 * once for the mailbox, the skip-current flag, the archive root and the
 * mailbox's delimiter.
 */
module Dates {
  import opened Optional

  /** Years that the layout "2006" prints as exactly four digits. */
  type Year = y: int | 0 <= y <= 9999
  type Month = m: int | 1 <= m <= 12 witness 1

  /** A local calendar month; a message's date and "now" are both reduced to it. */
  datatype YearMonth = YearMonth(year: Year, month: Month)

  /** What happens to one message. */
  datatype Decision = Skip | Target(name: string)

  function DigitChar(d: int): (c: char)
    requires 0 <= d <= 9
    ensures IsDigit(c) && DigitValue(c) == d
  {
    (48 + d) as char
  }

  predicate IsDigit(c: char) { '0' <= c <= '9' }

  function DigitValue(c: char): int
    requires IsDigit(c)
  {
    c as int - 48
  }

  predicate AllDigits(s: string) { forall i :: 0 <= i < |s| ==> IsDigit(s[i]) }

  /** The number a string of decimal digits denotes. */
  function DecimalValue(s: string): nat
    requires AllDigits(s)
  {
    if s == [] then 0 else DecimalValue(s[..|s| - 1]) * 10 + DigitValue(s[|s| - 1])
  }

  function Pow10(w: nat): (p: nat)
    ensures p >= 1
  {
    if w == 0 then 1 else 10 * Pow10(w - 1)
  }

  /** The last `w` decimal digits of `n`, zero-padded on the left, as Go's
      time formatting prints a fixed-width number. When `n` has at most `w`
      digits they denote `n` again. */
  function PadDigits(n: nat, w: nat): (s: string)
    ensures |s| == w && AllDigits(s)
    ensures n < Pow10(w) ==> DecimalValue(s) == n
  {
    if w == 0 then []
    else
      var s := PadDigits(n / 10, w - 1) + [DigitChar(n % 10)];
      assert s[..|s| - 1] == PadDigits(n / 10, w - 1);
      s
  }

  /** The year as the layout element "2006" prints it: four digits, zero-padded. */
  function Year4(y: Year): (s: string)
    ensures |s| == 4 && AllDigits(s) && DecimalValue(s) == y
  {
    PadDigits(y, 4)
  }

  /** The month as the layout element "01" prints it: two digits, zero-padded. */
  function Month2(m: Month): (s: string)
    ensures |s| == 2 && AllDigits(s) && DecimalValue(s) == m
  {
    PadDigits(m, 2)
  }

  /** The folder for a dated message: archive root, delimiter, year,
      delimiter, month. */
  function MonthFolder(archive: string, delim: string, ym: YearMonth): string
  {
    archive + delim + Year4(ym.year) + delim + Month2(ym.month)
  }

  /** The classification: `None` stands for Go's zero time, which an
      absent or unparsable Date header yields. */
  function Classify(date: Option<YearMonth>, now: YearMonth, skipCurrent: bool,
                    archive: string, delim: string): (r: Decision)
    ensures r.Skip? <==> skipCurrent && date == Some(now)
    ensures r.Target? ==> archive <= r.name && (r.name == archive <==> date.None?)
  {
    match date
    case None => Target(archive)
    case Some(ym) =>
      if skipCurrent && now.year == ym.year && now.month == ym.month then Skip
      else Target(MonthFolder(archive, delim, ym))
  }

  /** A message without a usable date goes to the archive root itself. */
  lemma UndatedGoesToRoot(now: YearMonth, skipCurrent: bool, archive: string, delim: string)
    ensures Classify(None, now, skipCurrent, archive, delim) == Target(archive)
  {
  }

  /** A message is left in place exactly when skipping is on and it dates
      from the current month. */
  lemma SkipExactlyCurrentMonth(date: Option<YearMonth>, now: YearMonth, skipCurrent: bool,
                                archive: string, delim: string)
    ensures Classify(date, now, skipCurrent, archive, delim) == Skip
        <==> skipCurrent && date == Some(now)
  {
  }

  /** The month folder reads back: after the root and the delimiter come
      four digits spelling the year, the delimiter again, and two digits
      spelling the month. */
  lemma MonthFolderReadsBack(archive: string, delim: string, ym: YearMonth)
    ensures var f := MonthFolder(archive, delim, ym);
      var a, d := |archive|, |delim|;
      && |f| == a + 2 * d + 6
      && f[..a] == archive
      && f[a..a + d] == delim
      && AllDigits(f[a + d..a + d + 4]) && DecimalValue(f[a + d..a + d + 4]) == ym.year
      && f[a + d + 4..a + 2 * d + 4] == delim
      && AllDigits(f[a + 2 * d + 4..]) && DecimalValue(f[a + 2 * d + 4..]) == ym.month
  {
    var f := MonthFolder(archive, delim, ym);
    var a, d := |archive|, |delim|;
    var y, m := Year4(ym.year), Month2(ym.month);
    assert f == archive + delim + y + delim + m;
    assert f[..a] == archive;
    assert f[a..a + d] == delim;
    assert f[a + d..a + d + 4] == y;
    assert f[a + d + 4..a + 2 * d + 4] == delim;
    assert f[a + 2 * d + 4..] == m;
  }

  /** Different months land in different folders under the same root. */
  lemma MonthFolderInjective(archive: string, delim: string, x: YearMonth, y: YearMonth)
    requires MonthFolder(archive, delim, x) == MonthFolder(archive, delim, y)
    ensures x == y
  {
    MonthFolderReadsBack(archive, delim, x);
    MonthFolderReadsBack(archive, delim, y);
  }

  /** A dated message that is not skipped goes to its month folder, which
      is never the archive root itself. */
  lemma DatedGoesToMonthFolder(ym: YearMonth, now: YearMonth, skipCurrent: bool,
                               archive: string, delim: string)
    requires !(skipCurrent && ym == now)
    ensures Classify(Some(ym), now, skipCurrent, archive, delim) == Target(MonthFolder(archive, delim, ym))
    ensures Classify(Some(ym), now, skipCurrent, archive, delim) != Target(archive)
  {
    MonthFolderReadsBack(archive, delim, ym);
  }

  /** With root "Archive" and delimiter "/", a message of November 2023
      goes to "Archive/2023/11". */
  lemma ExampleNovember2023()
    ensures Classify(Some(YearMonth(2023, 11)), YearMonth(2024, 3), true, "Archive", "/")
         == Target("Archive/2023/11")
  {
    November2023Folder("Archive");
    ArchiveRootName();
  }

  /** Without an archive root, a dated message is sent to a name that
      starts with the delimiter: November 2023 goes to "/2023/11". */
  lemma ExampleEmptyRoot()
    ensures Classify(Some(YearMonth(2023, 11)), YearMonth(2024, 3), true, "", "/")
         == Target("/2023/11")
  {
    assert Classify(Some(YearMonth(2023, 11)), YearMonth(2024, 3), true, "", "/")
        == Target(MonthFolder("", "/", YearMonth(2023, 11)));
    November2023Folder("");
    assert "" + "/2023/11" == "/2023/11";
  }

  lemma ArchiveRootName()
    ensures "Archive" + "/2023/11" == "Archive/2023/11"
  {
  }

  /** The folder of November 2023 under any root, with delimiter "/". */
  lemma November2023Folder(archive: string)
    ensures MonthFolder(archive, "/", YearMonth(2023, 11)) == archive + "/2023/11"
  {
    var y, m := Year4(2023), Month2(11);
    assert "/" + y + "/" + m == "/2023/11" by {
      Year2023();
      November();
    }
    assert archive + "/" + y + "/" + m == archive + ("/" + y + "/" + m);
  }

  lemma Year2023()
    ensures Year4(2023) == "2023"
  {
    assert PadDigits(2, 1) == "2";
    assert PadDigits(20, 2) == "20";
    assert PadDigits(202, 3) == "202";
  }

  lemma November()
    ensures Month2(11) == "11"
  {
    assert PadDigits(1, 1) == "1";
  }

  /** With skipping on, in March 2024, a message from March 2024 stays. */
  lemma ExampleCurrentMonthSkipped()
    ensures Classify(Some(YearMonth(2024, 3)), YearMonth(2024, 3), true, "Archive", "/") == Skip
  {
  }
}
