/**
 * The fixed table of state-level Enrollment reports: ten school years times five
 * display variables from the yearly export, then six subgroups from the trend export.
 */
module StateEnrollment {
  import opened Text
  import opened Entities

  const Years: seq<string> := [
    "2007-08", "2008-09", "2009-10", "2010-11", "2011-12",
    "2012-13", "2013-14", "2014-15", "2015-16", "2016-17"
  ]

  /** The display codes, in the dictionary's insertion order. */
  const DisplayKeys: seq<string> := ["1", "2", "3", "4", "5"]

  /** The file-name fragment for each display code, index for index. */
  const DisplayNames: seq<string> := [
    "grade-by-gender",
    "race_ethnicity-by-gender",
    "race_ethnicity-by-special-education",
    "race_ethnicity-by-ell",
    "race_ethnicity-by-free_reduced_lunch"
  ]

  const TrendSubgroups: seq<string> := [
    "All+Students", "Race", "Gender", "Lunch", "Special+Education", "ELL"
  ]

  /** Number of synthetic targets: every year with every display code, plus every trend subgroup. */
  const TableSize := 10 * 5 + 6

  /** Fixed parts of the yearly export url, around the year and the display code. */
  const YearUrlHead := "http://edsight.ct.gov/SASStoredProcess/do?_program=/CTDOE/EdSight/Release/Reporting/Public/Reports/StoredProcesses//EnrollmentYearExport&_year="
  const YearUrlMiddle := "&_district=State+of+Connecticut&_school=+&_subgroup=+&display="

  /** Fixed part of the trend export url, before the subgroup. */
  const TrendUrlHead := "http://edsight.ct.gov/SASStoredProcess/do?_program=/CTDOE/EdSight/Release/Reporting/Public/Reports/StoredProcesses//EnrollmentTrendExport&_year=Trend&_district=State+of+Connecticut&_school=+&_subgroup="

  const YearNameHead := "enrollment__"
  const TrendNameHead := "enrollment__trend_"
  const StateSuffix := "_ct.csv"

  function YearUrl(year: string, key: string): string {
    YearUrlHead + year + YearUrlMiddle + key
  }

  function TrendUrl(group: string): string {
    TrendUrlHead + group
  }

  function YearBasename(year: string, display: string): string {
    YearNameHead + year + "_" + display + StateSuffix
  }

  /** The subgroup lower-cased with `+` replaced by `-`. */
  function TrendSlug(group: string): string {
    ReplaceChar(Lower(group), '+', '-')
  }

  function TrendBasename(group: string): string {
    TrendNameHead + TrendSlug(group) + StateSuffix
  }

  /** File name of the `i`-th table row, before it is joined onto the output directory. */
  function Basename(i: nat): (b: string)
    requires i < TableSize
    ensures EndsWith(b, StateSuffix)
    ensures |b| > 0 && b[0] == 'e'
  {
    if i < 50 then
      var b := YearBasename(Years[i / 5], DisplayNames[i % 5]);
      assert b[|b| - |StateSuffix|..] == StateSuffix;
      b
    else
      var b := TrendBasename(TrendSubgroups[i - 50]);
      assert b[|b| - |StateSuffix|..] == StateSuffix;
      b
  }

  /** Request url of the `i`-th table row. */
  function RowUrl(i: nat): string
    requires i < TableSize
  {
    if i < 50 then YearUrl(Years[i / 5], DisplayKeys[i % 5]) else TrendUrl(TrendSubgroups[i - 50])
  }

  /** The `i`-th table row. */
  function Row(absDir: string, i: nat): (t: Target)
    requires i < TableSize
    ensures t.url == RowUrl(i) && t.param == map[] && t.filename == PathJoin(absDir, Basename(i))
    ensures t.filename == DirPrefix(absDir) + Basename(i)
    ensures EndsWith(t.filename, StateSuffix)
  {
    var b := Basename(i);
    var t := Target(RowUrl(i), map[], PathJoin(absDir, b));
    assert t.filename == t.filename[..|t.filename| - |b|] + t.filename[|t.filename| - |b|..];
    EndsWithTrans(t.filename, b, StateSuffix);
    t
  }

  /** Row of year `y` (0-based) with display code number `k` (0-based): years outer, codes inner. */
  function YearPos(y: nat, k: nat): (i: nat)
    requires y < 10 && k < 5
    ensures i < 50
  {
    5 * y + k
  }

  /** Year `y` with display code `k` sits at row `YearPos(y, k)`. */
  lemma YearRow(y: nat, k: nat)
    requires y < 10 && k < 5
    ensures RowUrl(YearPos(y, k)) == YearUrl(Years[y], DisplayKeys[k])
    ensures Basename(YearPos(y, k)) == YearBasename(Years[y], DisplayNames[k])
  {
    var i := YearPos(y, k);
    assert i / 5 == y && i % 5 == k;
  }

  /** Trend subgroup `g` sits at row `50 + g`. */
  lemma TrendRow(g: nat)
    requires g < 6
    ensures 50 + g < TableSize
    ensures RowUrl(50 + g) == TrendUrl(TrendSubgroups[g])
    ensures Basename(50 + g) == TrendBasename(TrendSubgroups[g])
  {
  }

  /**
   * The table, ordered year by year with display codes 1..5 inside each year, then the
   * trend subgroups. No row carries query parameters (the url already holds them), and
   * every file lies directly in the output directory with a name ending in `_ct.csv`.
   */
  function Targets(absDir: string): (r: seq<Target>)
    ensures |r| == TableSize
    ensures forall i :: 0 <= i < |r| ==> r[i].param == map[] && EndsWith(r[i].filename, StateSuffix)
    ensures forall y, k :: 0 <= y < |Years| && 0 <= k < |DisplayKeys| ==>
      r[YearPos(y, k)].url == YearUrl(Years[y], DisplayKeys[k])
      && r[YearPos(y, k)].filename == DirPrefix(absDir) + YearBasename(Years[y], DisplayNames[k])
    ensures forall g :: 0 <= g < |TrendSubgroups| ==>
      r[50 + g].url == TrendUrl(TrendSubgroups[g])
      && r[50 + g].filename == DirPrefix(absDir) + TrendBasename(TrendSubgroups[g])
  {
    var r := seq(TableSize, i requires 0 <= i < TableSize => Row(absDir, i));
    forall y, k | 0 <= y < |Years| && 0 <= k < |DisplayKeys|
      ensures r[YearPos(y, k)].url == YearUrl(Years[y], DisplayKeys[k])
      ensures r[YearPos(y, k)].filename == DirPrefix(absDir) + YearBasename(Years[y], DisplayNames[k])
    {
      YearRow(y, k);
    }
    forall g | 0 <= g < |TrendSubgroups|
      ensures r[50 + g].url == TrendUrl(TrendSubgroups[g])
      ensures r[50 + g].filename == DirPrefix(absDir) + TrendBasename(TrendSubgroups[g])
    {
      TrendRow(g);
    }
    r
  }

  /** `TrendSlug(group) == slug`, checked character by character. */
  lemma TrendSlugIs(group: string, slug: string)
    requires |group| == |slug|
    requires forall i :: 0 <= i < |group| ==> (if LowerChar(group[i]) == '+' then '-' else LowerChar(group[i])) == slug[i]
    ensures TrendSlug(group) == slug
  {
  }

  /** The trend file-name fragments, spelled out. */
  lemma TrendSlugs()
    ensures TrendSlug(TrendSubgroups[0]) == "all-students"
    ensures TrendSlug(TrendSubgroups[1]) == "race"
    ensures TrendSlug(TrendSubgroups[2]) == "gender"
    ensures TrendSlug(TrendSubgroups[3]) == "lunch"
    ensures TrendSlug(TrendSubgroups[4]) == "special-education"
    ensures TrendSlug(TrendSubgroups[5]) == "ell"
  {
    TrendSlugIs("All+Students", "all-students");
    TrendSlugIs("Race", "race");
    TrendSlugIs("Gender", "gender");
    TrendSlugIs("Lunch", "lunch");
    TrendSlugIs("Special+Education", "special-education");
    TrendSlugIs("ELL", "ell");
  }

  /** The middle of a name that sits between a fixed head and a fixed tail. */
  lemma MiddleOf(s: string, head: string, mid: string, tail: string)
    requires s == head + mid + tail
    ensures s[|head|..|s| - |tail|] == mid
  {
  }

  /** The years are seven-character strings starting with `2`, told apart by their fourth character. */
  lemma YearsShape(a: nat)
    requires a < 10
    ensures |Years[a]| == 7 && Years[a][0] == '2'
    ensures Years[a][3] == "7890123456"[a]
  {
  }

  /** The display-code fragments are told apart by their lengths. */
  lemma DisplayNamesShape(a: nat)
    requires a < 5
    ensures |DisplayNames[a]| == [15, 24, 35, 21, 36][a]
  {
  }

  /** Yearly names whose equally long years differ at some position differ. */
  lemma YearBasenameYearDiffers(a: string, b: string, d1: string, d2: string, p: nat)
    requires |a| == |b| && p < |a| && a[p] != b[p]
    ensures YearBasename(a, d1) != YearBasename(b, d2)
  {
    var b1 := YearBasename(a, d1);
    var b2 := YearBasename(b, d2);
    assert b1 == YearNameHead + a + ("_" + d1 + StateSuffix);
    assert b2 == YearNameHead + b + ("_" + d2 + StateSuffix);
    assert b1[|YearNameHead| + p] == a[p];
    assert b2[|YearNameHead| + p] == b[p];
  }

  /** Two yearly rows of different years never share a file name fragment. */
  lemma YearBasenamesDistinctYears(y1: nat, k1: nat, y2: nat, k2: nat)
    requires y1 < 10 && k1 < 5 && y2 < 10 && k2 < 5 && y1 != y2
    ensures YearBasename(Years[y1], DisplayNames[k1]) != YearBasename(Years[y2], DisplayNames[k2])
  {
    YearsShape(y1);
    YearsShape(y2);
    YearBasenameYearDiffers(Years[y1], Years[y2], DisplayNames[k1], DisplayNames[k2], 3);
  }

  /** Two yearly rows of one year with different display codes never share a file name fragment. */
  lemma YearBasenamesDistinctCodes(y: nat, k1: nat, k2: nat)
    requires y < 10 && k1 < 5 && k2 < 5 && k1 != k2
    ensures YearBasename(Years[y], DisplayNames[k1]) != YearBasename(Years[y], DisplayNames[k2])
  {
    DisplayNamesShape(k1);
    DisplayNamesShape(k2);
  }

  /** Two rows of the yearly export with different year or display code never share a file name fragment. */
  lemma YearBasenamesDistinct(y1: nat, k1: nat, y2: nat, k2: nat)
    requires y1 < 10 && k1 < 5 && y2 < 10 && k2 < 5 && (y1 != y2 || k1 != k2)
    ensures YearBasename(Years[y1], DisplayNames[k1]) != YearBasename(Years[y2], DisplayNames[k2])
  {
    if y1 != y2 {
      YearBasenamesDistinctYears(y1, k1, y2, k2);
    } else {
      YearBasenamesDistinctCodes(y1, k1, k2);
    }
  }

  /** A yearly name and a trend name differ where the year starts: a `2` against the `t` of `trend`. */
  lemma YearTrendNamesDiffer(year: string, display: string, group: string)
    requires |year| > 0 && year[0] == '2'
    ensures YearBasename(year, display) != TrendBasename(group)
  {
    var b1 := YearBasename(year, display);
    var b2 := TrendBasename(group);
    assert b1 == YearNameHead + year + ("_" + display + StateSuffix);
    assert b1[|YearNameHead|] == '2';
    assert b2 == TrendNameHead + (TrendSlug(group) + StateSuffix);
    assert b2[|YearNameHead|] == TrendNameHead[12] == 't';
  }

  /** A yearly row and a trend row never share a file name fragment. */
  lemma YearTrendBasenamesDistinct(y: nat, k: nat, g: nat)
    requires y < 10 && k < 5 && g < 6
    ensures YearBasename(Years[y], DisplayNames[k]) != TrendBasename(TrendSubgroups[g])
  {
    YearsShape(y);
    YearTrendNamesDiffer(Years[y], DisplayNames[k], TrendSubgroups[g]);
  }

  /** Two trend rows never share a file name fragment. */
  lemma TrendBasenamesDistinct(i: nat, j: nat)
    requires 50 <= i < TableSize && 50 <= j < TableSize && i != j
    ensures Basename(i) != Basename(j)
  {
    TrendSlugs();
    MiddleOf(TrendBasename(TrendSubgroups[i - 50]), TrendNameHead, TrendSlug(TrendSubgroups[i - 50]), StateSuffix);
    MiddleOf(TrendBasename(TrendSubgroups[j - 50]), TrendNameHead, TrendSlug(TrendSubgroups[j - 50]), StateSuffix);
  }

  /** No two rows of the table share a file name fragment. */
  lemma BasenamesDistinct(i: nat, j: nat)
    requires i < TableSize && j < TableSize && i != j
    ensures Basename(i) != Basename(j)
  {
    if i < 50 && j < 50 {
      assert i == 5 * (i / 5) + i % 5 && j == 5 * (j / 5) + j % 5;
      YearBasenamesDistinct(i / 5, i % 5, j / 5, j % 5);
    } else if i < 50 {
      YearTrendBasenamesDistinct(i / 5, i % 5, j - 50);
    } else if j < 50 {
      YearTrendBasenamesDistinct(j / 5, j % 5, i - 50);
    } else {
      TrendBasenamesDistinct(i, j);
    }
  }

  /** Every row of the table is saved to its own file. */
  lemma TargetsFilenamesDistinct(absDir: string, i: nat, j: nat)
    requires i < TableSize && j < TableSize && i != j
    ensures Targets(absDir)[i].filename != Targets(absDir)[j].filename
  {
    var r := Targets(absDir);
    BasenamesDistinct(i, j);
    assert r[i] == Row(absDir, i) && r[j] == Row(absDir, j);
    assert Basename(i)[0] == 'e' && Basename(j)[0] == 'e';
    if r[i].filename == r[j].filename {
      PathJoinInjective(absDir, Basename(i), Basename(j));
    }
  }
}
