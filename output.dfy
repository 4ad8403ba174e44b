/** The names merge_kml_files and save_analysis_to_excel give their output,
    built from a `%Y%m%d%H%M%S` timestamp, and the rows of the report. */
module Output {
  import opened Strings

  /** One reading of the wall clock, as datetime.now() gives it. */
  datatype Timestamp = Timestamp(year: nat, month: nat, day: nat, hour: nat, minute: nat, second: nat) {
    /** The ranges datetime guarantees for its fields. */
    predicate Valid() {
      1 <= year <= 9999 && 1 <= month <= 12 && 1 <= day <= 31 &&
      hour < 24 && minute < 60 && second < 60
    }
  }

  /** `t` later than `s`: the fields compared from the year down to the second. */
  predicate Before(s: Timestamp, t: Timestamp) {
    s.year < t.year || (s.year == t.year &&
    (s.month < t.month || (s.month == t.month &&
    (s.day < t.day || (s.day == t.day &&
    (s.hour < t.hour || (s.hour == t.hour &&
    (s.minute < t.minute || (s.minute == t.minute &&
    s.second < t.second)))))))))
  }

  /** strftime('%Y%m%d%H%M%S'): the fields zero-padded, no separators. */
  function Stamp(t: Timestamp): (s: string)
    ensures IsDigits(s) && |s| >= 14
  {
    var r4 := Pad(t.minute, 2) + Pad(t.second, 2);
    var r3 := Pad(t.hour, 2) + r4;
    var r2 := Pad(t.day, 2) + r3;
    var r1 := Pad(t.month, 2) + r2;
    DigitsConcat(Pad(t.minute, 2), Pad(t.second, 2));
    DigitsConcat(Pad(t.hour, 2), r4);
    DigitsConcat(Pad(t.day, 2), r3);
    DigitsConcat(Pad(t.month, 2), r2);
    DigitsConcat(Pad(t.year, 4), r1);
    Pad(t.year, 4) + r1
  }

  const MergedSuffix: string := "_Merged.kml"
  const AnalysisPrefix: string := "Analysis_"
  const AnalysisSuffix: string := ".xlsx"

  /** A name built as prefix, stamp, suffix starts with the prefix and ends with the suffix. */
  lemma NameAffixes(p: string, m: string, x: string)
    ensures |p + (m + x)| >= |p| && (p + (m + x))[..|p|] == p
    ensures EndsWith(p + (m + x), x)
  {
    var name := p + (m + x);
    assert name[|name| - |x|..] == x;
  }

  /** The merged document's file name. */
  function MergedFileName(t: Timestamp): (name: string)
    ensures EndsWith(name, MergedSuffix)
  {
    NameAffixes([], Stamp(t), MergedSuffix);
    assert [] + (Stamp(t) + MergedSuffix) == Stamp(t) + MergedSuffix;
    Stamp(t) + MergedSuffix
  }

  /** The report's file name. */
  function AnalysisFileName(t: Timestamp): (name: string)
    ensures |name| >= |AnalysisPrefix| && name[..|AnalysisPrefix|] == AnalysisPrefix
    ensures EndsWith(name, AnalysisSuffix)
  {
    NameAffixes(AnalysisPrefix, Stamp(t), AnalysisSuffix);
    AnalysisPrefix + (Stamp(t) + AnalysisSuffix)
  }

  /** A year with four digits makes the stamp exactly 14 digits. */
  lemma StampWidth(t: Timestamp)
    requires t.Valid() && t.year >= 1000
    ensures |Stamp(t)| == 14 && IsDigits(Stamp(t))
  {
    PadWidth(t.year, 4);
    PadWidth(t.month, 2);
    PadWidth(t.day, 2);
    PadWidth(t.hour, 2);
    PadWidth(t.minute, 2);
    PadWidth(t.second, 2);
  }

  /** Reads the six fields back out of a 14-digit stamp. */
  function ParseStamp(s: string): (t: Timestamp)
    requires |s| == 14 && IsDigits(s)
    ensures t.year < 10000 && t.month < 100 && t.day < 100
    ensures t.hour < 100 && t.minute < 100 && t.second < 100
  {
    Timestamp(DigitsValue(s[0..4]), DigitsValue(s[4..6]), DigitsValue(s[6..8]),
              DigitsValue(s[8..10]), DigitsValue(s[10..12]), DigitsValue(s[12..14]))
  }

  /** Where each field sits in a stamp. */
  lemma StampSlices(y: string, mo: string, d: string, h: string, mi: string, se: string)
    requires |y| == 4 && |mo| == 2 && |d| == 2 && |h| == 2 && |mi| == 2 && |se| == 2
    ensures var s := y + (mo + (d + (h + (mi + se))));
      |s| == 14 && s[0..4] == y && s[4..6] == mo && s[6..8] == d &&
      s[8..10] == h && s[10..12] == mi && s[12..14] == se
  {
    var r4 := mi + se;
    var r3 := h + r4;
    var r2 := d + r3;
    var r1 := mo + r2;
    var s := y + r1;
    assert s[4..6] == r1[0..2];
    assert s[6..8] == r2[0..2];
    assert s[8..10] == r3[0..2];
    assert s[10..12] == r4[0..2];
  }

  /** The stamp loses nothing: every field can be read back from it. */
  lemma StampRoundTrip(t: Timestamp)
    requires t.Valid() && t.year >= 1000
    ensures |Stamp(t)| == 14 && IsDigits(Stamp(t))
    ensures ParseStamp(Stamp(t)) == t
  {
    StampWidth(t);
    var y, mo, d, h, mi, se :=
      Pad(t.year, 4), Pad(t.month, 2), Pad(t.day, 2), Pad(t.hour, 2), Pad(t.minute, 2), Pad(t.second, 2);
    PadWidth(t.year, 4);
    PadWidth(t.month, 2);
    PadWidth(t.day, 2);
    PadWidth(t.hour, 2);
    PadWidth(t.minute, 2);
    PadWidth(t.second, 2);
    StampSlices(y, mo, d, h, mi, se);
    var s := Stamp(t);
    var p := ParseStamp(s);
    assert p.year == t.year && p.month == t.month && p.day == t.day;
    assert p.hour == t.hour && p.minute == t.minute && p.second == t.second;
  }

  /** One padded field against another of the same width: string order and
      numeric order agree, as do string and numeric equality. */
  lemma FieldOrder(x: nat, y: nat, w: nat)
    requires 1 <= w && x < Pow10(w) && y < Pow10(w)
    ensures |Pad(x, w)| == w && |Pad(y, w)| == w
    ensures LexLess(Pad(x, w), Pad(y, w)) <==> x < y
    ensures Pad(x, w) == Pad(y, w) <==> x == y
  {
    PadWidth(x, w);
    PadWidth(y, w);
    LexLessDigits(Pad(x, w), Pad(y, w));
  }

  /** The stamps of two clock readings sort as the readings do. */
  lemma {:induction false} StampOrder(s: Timestamp, t: Timestamp)
    requires s.Valid() && t.Valid() && s.year >= 1000 && t.year >= 1000
    ensures |Stamp(s)| == 14 && |Stamp(t)| == 14
    ensures LexLess(Stamp(s), Stamp(t)) <==> Before(s, t)
  {
    StampWidth(s);
    StampWidth(t);
    FieldOrder(s.year, t.year, 4);
    FieldOrder(s.month, t.month, 2);
    FieldOrder(s.day, t.day, 2);
    FieldOrder(s.hour, t.hour, 2);
    FieldOrder(s.minute, t.minute, 2);
    FieldOrder(s.second, t.second, 2);
    var s5, t5 := Pad(s.second, 2), Pad(t.second, 2);
    var s4, t4 := Pad(s.minute, 2) + s5, Pad(t.minute, 2) + t5;
    var s3, t3 := Pad(s.hour, 2) + s4, Pad(t.hour, 2) + t4;
    var s2, t2 := Pad(s.day, 2) + s3, Pad(t.day, 2) + t3;
    var s1, t1 := Pad(s.month, 2) + s2, Pad(t.month, 2) + t2;
    LexLessAppend(Pad(s.minute, 2), Pad(t.minute, 2), s5, t5);
    LexLessAppend(Pad(s.hour, 2), Pad(t.hour, 2), s4, t4);
    LexLessAppend(Pad(s.day, 2), Pad(t.day, 2), s3, t3);
    LexLessAppend(Pad(s.month, 2), Pad(t.month, 2), s2, t2);
    LexLessAppend(Pad(s.year, 4), Pad(t.year, 4), s1, t1);
  }

  /** Because the stamp has a fixed width, sorting merged files by name
      sorts them by the clock reading they were stamped with. */
  lemma MergedNamesSortChronologically(s: Timestamp, t: Timestamp)
    requires s.Valid() && t.Valid() && s.year >= 1000 && t.year >= 1000
    ensures LexLess(MergedFileName(s), MergedFileName(t)) <==> Before(s, t)
  {
    StampOrder(s, t);
    LexLessAppend(Stamp(s), Stamp(t), MergedSuffix, MergedSuffix);
    LexLessIrreflexive(MergedSuffix);
  }

  /** The same holds for the report names. */
  lemma AnalysisNamesSortChronologically(s: Timestamp, t: Timestamp)
    requires s.Valid() && t.Valid() && s.year >= 1000 && t.year >= 1000
    ensures LexLess(AnalysisFileName(s), AnalysisFileName(t)) <==> Before(s, t)
  {
    var a, b := Stamp(s) + AnalysisSuffix, Stamp(t) + AnalysisSuffix;
    StampOrder(s, t);
    LexLessAppend(Stamp(s), Stamp(t), AnalysisSuffix, AnalysisSuffix);
    LexLessIrreflexive(AnalysisSuffix);
    LexLessPrefix(AnalysisPrefix, a, b);
  }

  /** One row of the report's Summary sheet: a requested file and the total
      number of placemarks merged. */
  datatype ReportRow = ReportRow(fileName: string, placemarksCount: nat)

  /** The report's columns `File Name` and `Placemarks Count`: one row per
      requested file, failed ones included, each with the same total. */
  function AnalysisRows(selected: seq<string>, placemarkCount: nat): (rows: seq<ReportRow>)
    ensures |rows| == |selected|
    ensures forall i :: 0 <= i < |rows| ==>
              rows[i].fileName == selected[i] && rows[i].placemarksCount == placemarkCount
  {
    if selected == [] then []
    else AnalysisRows(selected[..|selected| - 1], placemarkCount)
         + [ReportRow(selected[|selected| - 1], placemarkCount)]
  }
}
