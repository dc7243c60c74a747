/**
 * The file name the serializer writes to:
 * `f"{filename.replace('.csv', '')}_{timestamp}.csv"` with
 * `timestamp = now().strftime("%Y%m%d_%H%M%S")`. The clock reading is a
 * parameter; the format is modelled.
 */
module Export {
  import opened Text

  datatype Option<T> = None | Some(value: T)

  const CsvExt: string := ".csv"

  /** The base name `run_etl_process` saves under (the default argument). */
  const DefaultBase: string := "youtube_data.csv"

  /** `base.replace(".csv", "")`: every occurrence is removed, not only a suffix. */
  function StripCsv(base: string): string
  {
    ReplaceAll(base, CsvExt, [])
  }

  /** The composed output file name. */
  function ComposeFilename(base: string, stamp: string): string
  {
    StripCsv(base) + "_" + stamp + CsvExt
  }

  /**
   * The name ends in `_<stamp>.csv`, is four characters shorter per `.csv`
   * removed from the base, and is the base itself followed by
   * `_<stamp>.csv` when the base holds no `.csv`.
   */
  lemma FilenameShape(base: string, stamp: string)
    ensures var name := ComposeFilename(base, stamp);
      && |name| == |base| - 4 * Count(base, CsvExt) + |stamp| + 5
      && name[|name| - (|stamp| + 5)..] == "_" + stamp + CsvExt
      && (!Occurs(base, CsvExt) ==> name == base + "_" + stamp + CsvExt)
  {
    var stripped, tail := StripCsv(base), "_" + stamp + CsvExt;
    var name := ComposeFilename(base, stamp);
    assert name == stripped + tail;
    assert |tail| == |stamp| + 5;
    assert name[|stripped|..] == tail;
    StripCsvLength(base);
    CountPositiveIffOccurs(base, CsvExt);
    if !Occurs(base, CsvExt) {
      ReplaceAllAbsent(base, CsvExt, []);
    }
  }

  lemma StripCsvLength(base: string)
    ensures |StripCsv(base)| == |base| - 4 * Count(base, CsvExt)
  {
    ReplaceAllLength(base, CsvExt, []);
  }

  /** Two runs with different timestamps write to different files. */
  lemma FilenameInjective(base: string, stamp1: string, stamp2: string)
    requires ComposeFilename(base, stamp1) == ComposeFilename(base, stamp2)
    ensures stamp1 == stamp2
  {
    var p := StripCsv(base) + "_";
    var name := ComposeFilename(base, stamp1);
    assert name == p + stamp1 + CsvExt && name == p + stamp2 + CsvExt;
    assert |stamp1| == |stamp2|;
    assert name[|p|..|p| + |stamp1|] == stamp1;
    assert name[|p|..|p| + |stamp2|] == stamp2;
  }

  /** With the default base the name is `youtube_data_<stamp>.csv`. */
  lemma DefaultFilename(stamp: string)
    ensures ComposeFilename(DefaultBase, stamp) == "youtube_data_" + stamp + CsvExt
  {
    StripDefaultBase();
    assert "youtube_data" + "_" == "youtube_data_";
  }

  lemma StripDefaultBase()
    ensures StripCsv(DefaultBase) == "youtube_data"
  {
    var stem := "youtube_data";
    assert DefaultBase == stem + CsvExt + [];
    StripCsvOfFirst(stem, []);
  }

  /** An interior `.csv` is removed as well as the trailing one. */
  lemma InteriorCsvRemoved(stamp: string)
    ensures ComposeFilename("old" + CsvExt + "data" + CsvExt, stamp) == "olddata_" + stamp + CsvExt
  {
    StripCsvOfFirst("old", "data" + CsvExt);
    StripCsvOfFirst("data", []);
    assert "old" + CsvExt + "data" + CsvExt == "old" + CsvExt + ("data" + CsvExt);
    assert "data" + CsvExt == "data" + CsvExt + [];
  }

  lemma StripCsvOfFirst(a: string, b: string)
    requires forall k :: 0 <= k < |a| ==> a[k] != '.'
    ensures StripCsv(a + CsvExt + b) == a + StripCsv(b)
  {
    NoMatchWithoutHead(a, CsvExt + b, CsvExt);
    assert a + CsvExt + b == a + (CsvExt + b);
    ReplaceAllFirstMatch(a, b, CsvExt, []);
  }

  /** The removal is a single pass: it can leave a `.csv` that it created. */
  lemma StripCsvSinglePass()
    ensures StripCsv(".c.csvsv") == CsvExt
  {
    var s := ".c.csvsv";
    assert s[..4][2] != CsvExt[2];
    assert s[1..] == "c" + (CsvExt + "sv");
    NoMatchWithoutHead("c", CsvExt + "sv", CsvExt);
    ReplaceAllPlainPrefix("c", CsvExt + "sv", CsvExt, []);
    ReplaceAllLeadingMatch("sv", CsvExt, []);
  }

  /** A clock reading, as far as the format string looks at it. */
  datatype DateTime = DateTime(year: int, month: int, day: int, hour: int, minute: int, second: int)
  {
    /** Field ranges of a clock reading with a four-digit year. */
    predicate Valid()
    {
      && 1000 <= year <= 9999 && 1 <= month <= 12 && 1 <= day <= 31
      && 0 <= hour < 24 && 0 <= minute < 60 && 0 <= second < 60
    }
  }

  predicate IsDigit(c: char)
  {
    '0' <= c <= '9'
  }

  function Pow10(n: nat): (p: nat)
    ensures p >= 1
  {
    if n == 0 then 1 else 10 * Pow10(n - 1)
  }

  /** The decimal digits of `n`, zero-padded to `width` (the `%04d`/`%02d` conversions). */
  function Pad(n: nat, width: nat): (r: string)
    requires n < Pow10(width)
    ensures |r| == width
    ensures forall k :: 0 <= k < |r| ==> IsDigit(r[k])
  {
    if width == 0 then []
    else Pad(n / 10, width - 1) + [(48 + n % 10) as char]
  }

  /** The number a string of decimal digits denotes. */
  function Num(s: string): int
  {
    if s == [] then 0 else 10 * Num(s[..|s| - 1]) + (s[|s| - 1] as int - 48)
  }

  /** Reading the padded digits back gives the number. */
  lemma {:induction false} NumPad(n: nat, width: nat)
    requires n < Pow10(width)
    ensures Num(Pad(n, width)) == n
  {
    if width > 0 {
      NumPad(n / 10, width - 1);
      var r := Pad(n, width);
      assert r[..|r| - 1] == Pad(n / 10, width - 1);
    }
  }

  /** `strftime("%Y%m%d_%H%M%S")`. */
  function Stamp(dt: DateTime): (t: string)
    requires dt.Valid()
    ensures |t| == 15 && t[8] == '_'
    ensures forall k :: 0 <= k < 15 && k != 8 ==> IsDigit(t[k])
  {
    Pad(dt.year, 4) + Pad(dt.month, 2) + Pad(dt.day, 2) + "_"
      + Pad(dt.hour, 2) + Pad(dt.minute, 2) + Pad(dt.second, 2)
  }

  /** Reads a `%Y%m%d_%H%M%S` timestamp back into its fields. */
  function ParseStamp(t: string): Option<DateTime>
  {
    if |t| == 15 && t[8] == '_' && forall k :: 0 <= k < 15 && k != 8 ==> IsDigit(t[k]) then
      Some(DateTime(Num(t[..4]), Num(t[4..6]), Num(t[6..8]), Num(t[9..11]), Num(t[11..13]), Num(t[13..])))
    else None
  }

  /** The timestamp loses nothing: it determines the clock reading it was made from. */
  lemma StampRoundTrip(dt: DateTime)
    requires dt.Valid()
    ensures ParseStamp(Stamp(dt)) == Some(dt)
  {
    var t := Stamp(dt);
    assert t[..4] == Pad(dt.year, 4);
    assert t[4..6] == Pad(dt.month, 2);
    assert t[6..8] == Pad(dt.day, 2);
    assert t[9..11] == Pad(dt.hour, 2);
    assert t[11..13] == Pad(dt.minute, 2);
    assert t[13..] == Pad(dt.second, 2);
    NumPad(dt.year, 4);
    NumPad(dt.month, 2);
    NumPad(dt.day, 2);
    NumPad(dt.hour, 2);
    NumPad(dt.minute, 2);
    NumPad(dt.second, 2);
  }
}
