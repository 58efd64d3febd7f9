/**
 * The detail page's field table: the fixed grouping of columns into four sections, the
 * display form of a column name, and the pairing of a legacy column with its predicted
 * counterpart that decides when the original/forecast badges appear.
 */
module DetailPage {
  import opened Js

  // ---------------------------------------------------------------------------
  // Grouping

  type Group = (string, seq<string>)

  const Groups: seq<Group> := [
    ("Основная информация", ["carcass_id", "weight_legacy"]),
    ("REA анализ", ["rea_legacy", "rea_predict", "reheight_mm_legacy", "rebroad_mm_legacy",
                    "main_axis_length_predict", "perpendicular_axis_length_predict"]),
    ("Показатели выхода", ["yieldgrade_legacy", "yieldgrade_legacy_grade", "yieldgrade_predict",
                           "yieldgrade_predict_grade", "adjpyg_legacy", "adjpyg_predict",
                           "actualpyg_legacy", "actualpyg_predict"]),
    ("Показатели мраморности", ["marbling_legacy", "marbling_legacy_grade", "marbling_legacy_quality",
                                "marbling_predict", "marbling_predict_grade", "marbling_predict_quality"])
  ]

  /** `groupData()`: nothing before a row is loaded, the fixed table afterwards. */
  function GroupData(carcassData: Option<Record>): (r: seq<Group>)
    ensures carcassData.None? ==> r == []
    ensures carcassData.Some? ==> |r| == 4 && forall i :: 0 <= i < 4 ==> r[i] == Groups[i]
  {
    if carcassData.None? then [] else Groups
  }

  /** No name is listed twice in `fields`. */
  predicate NoDuplicates(fields: seq<string>)
  {
    forall i, j :: 0 <= i < j < |fields| ==> fields[i] != fields[j]
  }

  /** Sections `g1` and `g2` share no name. */
  predicate SectionsApart(g1: int, g2: int)
    requires 0 <= g1 < |Groups| && 0 <= g2 < |Groups|
  {
    forall f :: f in Groups[g1].1 ==> f !in Groups[g2].1
  }

  /** Within a section no name is listed twice. */
  lemma SectionsHaveNoDuplicates(g: int)
    requires 0 <= g < |Groups|
    ensures NoDuplicates(Groups[g].1)
  {
  }

  /** No name is listed in two sections. */
  lemma SectionsDisjoint(g1: int, g2: int)
    requires 0 <= g1 < g2 < |Groups|
    ensures SectionsApart(g1, g2)
  {
    if g1 == 0 && g2 == 1 { ApartZeroOne(); }
    else if g1 == 0 && g2 == 2 { ApartZeroTwo(); }
    else if g1 == 0 { ApartZeroThree(); }
    else if g1 == 1 && g2 == 2 { ApartOneTwo(); }
    else if g1 == 1 { ApartOneThree(); }
    else { ApartTwoThree(); }
  }

  lemma ApartZeroOne() ensures SectionsApart(0, 1) { }
  lemma ApartZeroTwo() ensures SectionsApart(0, 2) { }
  lemma ApartZeroThree() ensures SectionsApart(0, 3) { }
  lemma ApartOneTwo() ensures SectionsApart(1, 2) { }
  lemma ApartOneThree() ensures SectionsApart(1, 3) { }
  lemma ApartTwoThree() ensures SectionsApart(2, 3) { }

  // ---------------------------------------------------------------------------
  // `formatFieldName`

  /** The regex class `\w`. */
  predicate IsWordChar(c: char)
  {
    ('a' <= c <= 'z') || ('A' <= c <= 'Z') || ('0' <= c <= '9') || c == '_'
  }

  /** `field.replace(/_/g, ' ')`. */
  function UnderscoresToSpaces(s: string): (r: string)
    ensures |r| == |s|
    ensures forall i :: 0 <= i < |s| ==> r[i] == if s[i] == '_' then ' ' else s[i]
  {
    seq(|s|, i requires 0 <= i < |s| => if s[i] == '_' then ' ' else s[i])
  }

  /** Position `i` holds the first character of a run of word characters; `inWord` tells
      whether the character before the string was one. */
  predicate StartsWord(s: string, i: int, inWord: bool)
    requires 0 <= i < |s|
  {
    IsWordChar(s[i]) && (if i == 0 then !inWord else !IsWordChar(s[i - 1]))
  }

  /** `.replace(/(\w)(\w*)/g, ...)`: scans left to right, upper-casing the first character of
      every run of word characters. */
  function CapitalizeWords(s: string, inWord: bool): (r: string)
    ensures |r| == |s|
    ensures forall i :: 0 <= i < |s| ==> r[i] == if StartsWord(s, i, inWord) then UpperChar(s[i]) else s[i]
  {
    if s == [] then []
    else
      var c := s[0];
      var rest := CapitalizeWords(s[1..], IsWordChar(c));
      var r := [if IsWordChar(c) && !inWord then UpperChar(c) else c] + rest;
      assert forall i :: 1 <= i < |s| ==> s[1..][i - 1] == s[i] && r[i] == rest[i - 1];
      assert forall i :: 1 <= i < |s| ==> (StartsWord(s[1..], i - 1, IsWordChar(c)) <==> StartsWord(s, i, inWord));
      r
  }

  function FormatFieldName(field: string): string
  {
    CapitalizeWords(UnderscoresToSpaces(field), false)
  }

  /** The display name has the column name's length and no underscore; every character is the
      column name's own, except that `_` becomes a space and the first letter of each word is
      upper-cased. */
  lemma FormatFieldNameMeaning(field: string)
    ensures |FormatFieldName(field)| == |field|
    ensures forall i :: 0 <= i < |field| ==> FormatFieldName(field)[i] != '_'
    ensures forall i :: 0 <= i < |field| ==>
      var u := UnderscoresToSpaces(field);
      FormatFieldName(field)[i] == if StartsWord(u, i, false) then UpperChar(u[i]) else u[i]
    ensures forall i :: 0 <= i < |field| && field[i] != '_' && !StartsWord(UnderscoresToSpaces(field), i, false) ==>
      FormatFieldName(field)[i] == field[i]
  {
  }

  lemma FormatFieldNameExample()
    ensures FormatFieldName("rea_legacy") == "Rea Legacy"
  {
    var u := UnderscoresToSpaces("rea_legacy");
    assert u == "rea legacy" by {
      assert forall i :: 0 <= i < 10 ==> u[i] == "rea legacy"[i];
    }
    var r := CapitalizeWords(u, false);
    assert r[0] == 'R' && r[4] == 'L' by {
      assert StartsWord(u, 0, false) && StartsWord(u, 4, false);
    }
    assert forall i :: 0 <= i < 10 && i != 0 && i != 4 ==> r[i] == u[i] by {
      forall i | 0 <= i < 10 && i != 0 && i != 4 ensures !StartsWord(u, i, false) {
      }
    }
    assert forall i :: 0 <= i < 10 ==> r[i] == "Rea Legacy"[i];
  }

  // ---------------------------------------------------------------------------
  // Legacy/predict pairing and the badges

  /** `field.replace('legacy', 'predict')`: only the first `legacy` is rewritten. */
  function PredictField(field: string): string
  {
    ReplaceFirst(field, "legacy", "predict")
  }

  /** `field.includes('legacy') && predictField in carcassData`. */
  predicate IsComparisonField(field: string, carcassData: Record)
  {
    Includes(field, "legacy") && PredictField(field) in carcassData
  }

  /** `carcassData[field]`; `None` stands for `undefined`. */
  function Get(carcassData: Record, field: string): Option<Value>
  {
    if field in carcassData then Some(carcassData[field]) else None
  }

  /** What the value cell shows. */
  datatype Cell = NotAvailable | Shown(v: Value) | Nothing

  function CellContent(carcassData: Record, field: string): (r: Cell)
    ensures r == NotAvailable <==> field in carcassData && carcassData[field].Null?
    ensures r.Shown? <==> field in carcassData && !carcassData[field].Null?
    ensures r.Shown? ==> r.v == carcassData[field]
  {
    match Get(carcassData, field)
    case Some(Null) => NotAvailable
    case Some(v) => Shown(v)
    case None => Nothing
  }

  /** The original/forecast badges of a row. */
  predicate ShowBadges(field: string, carcassData: Record)
  {
    var predictField := PredictField(field);
    && IsComparisonField(field, carcassData)
    && Get(carcassData, field) != Some(Null)
    && Get(carcassData, predictField) != Some(Null)
    && Get(carcassData, field) != Get(carcassData, predictField)
  }

  /** On a row that has the column, the badges show exactly for a comparison column whose two
      values are both non-null and not strictly equal. */
  lemma ShowBadgesMeaning(field: string, carcassData: Record)
    requires field in carcassData
    ensures ShowBadges(field, carcassData) <==>
      && Includes(field, "legacy")
      && PredictField(field) in carcassData
      && !carcassData[field].Null?
      && !carcassData[PredictField(field)].Null?
      && carcassData[field] != carcassData[PredictField(field)]
  {
  }

  /** A column without `legacy` in its name is never paired. */
  lemma NoLegacyNoPair(field: string, carcassData: Record)
    requires !Includes(field, "legacy")
    ensures PredictField(field) == field
    ensures !IsComparisonField(field, carcassData) && !ShowBadges(field, carcassData)
  {
  }

  // Two instances of the rewrite on listed columns, one with and one without a suffix after
  // `legacy`; every other listed column follows from `RewriteAfterPrefix` the same way.

  lemma PairReaLegacy()
    ensures PredictField("rea_legacy") == "rea_predict"
  {
    assert "rea_" + "legacy" + "" == "rea_legacy";
    assert "rea_" + "predict" + "" == "rea_predict";
    RewriteAfterPrefix("rea_", "");
  }

  lemma PairMarblingLegacyGrade()
    ensures PredictField("marbling_legacy_grade") == "marbling_predict_grade"
  {
    assert "marbling_" + "legacy" + "_grade" == "marbling_legacy_grade";
    assert "marbling_" + "predict" + "_grade" == "marbling_predict_grade";
    RewriteAfterPrefix("marbling_", "_grade");
  }

  /** `prefix + "legacy" + suffix` is rewritten at the `legacy` right after `prefix` when the
      prefix itself holds no `legacy`. */
  lemma RewriteAfterPrefix(prefix: string, suffix: string)
    requires forall j :: 0 <= j < |prefix| && prefix[j] == 'l' ==> j + 1 < |prefix| && prefix[j + 1] != 'e'
    ensures PredictField(prefix + "legacy" + suffix) == prefix + "predict" + suffix
  {
    var s := prefix + "legacy" + suffix;
    var i := |prefix|;
    assert OccursAt(s, "legacy", i) by {
      assert s[i..i + 6] == "legacy";
    }
    forall j | 0 <= j < i ensures !OccursAt(s, "legacy", j) {
      assert s[j] == prefix[j];
      assert s[j + 1] == if j + 1 < i then prefix[j + 1] else 'l';
    }
    assert IndexOf(s, "legacy") == Some(i);
    var r := PredictField(s);
    assert r[..i] == prefix;
    assert r[i..] == "predict" + suffix;
    assert r == r[..i] + r[i..];
  }
}
