/**
 * The list page: the free-text search that narrows the loaded rows, and the
 * "last updated" label.
 */
module HomePage {
  import opened Js

  // ---------------------------------------------------------------------------
  // Search

  /** A field value matches when it is non-null and its lower-cased string form contains `needle`. */
  predicate ValueMatches(v: Value, needle: string)
  {
    !v.Null? && Includes(Lower(ToString(v)), needle)
  }

  /** `Object.values(item).some(...)`. */
  predicate RecordMatches(rec: Record, needle: string)
  {
    exists v | v in rec.Values :: ValueMatches(v, needle)
  }

  /** `r` is `s` with some elements removed and the rest kept in order. */
  predicate IsSubsequence(r: seq<Record>, s: seq<Record>)
  {
    if r == [] then true
    else if s == [] then false
    else (r[0] == s[0] && IsSubsequence(r[1..], s[1..])) || IsSubsequence(r, s[1..])
  }

  /** `data.filter(item => RecordMatches(item, needle))`. */
  function KeepMatching(data: seq<Record>, needle: string): (r: seq<Record>)
    ensures forall x :: x in r <==> x in data && RecordMatches(x, needle)
    ensures forall x :: multiset(r)[x] == if RecordMatches(x, needle) then multiset(data)[x] else 0
    ensures multiset(r) <= multiset(data)
    ensures IsSubsequence(r, data)
  {
    if data == [] then []
    else
      var rest := KeepMatching(data[1..], needle);
      assert data == [data[0]] + data[1..];
      if RecordMatches(data[0], needle) then
        assert ([data[0]] + rest)[1..] == rest;
        [data[0]] + rest
      else rest
  }

  /** The search effect: a blank term keeps every row, any other term keeps the rows
      with a field containing it, ignoring case. */
  function FilterRecords(data: seq<Record>, searchTerm: string): seq<Record>
  {
    if Trim(searchTerm) == "" then data else KeepMatching(data, Lower(searchTerm))
  }

  /** The filter never invents or repeats rows, keeps their order, and drops only rows
      no field of which matches. */
  lemma FilterRecordsSound(data: seq<Record>, searchTerm: string)
    ensures multiset(FilterRecords(data, searchTerm)) <= multiset(data)
    ensures |FilterRecords(data, searchTerm)| <= |data|
    ensures IsSubsequence(FilterRecords(data, searchTerm), data)
    ensures forall x :: x in data && RecordMatches(x, Lower(searchTerm)) ==> x in FilterRecords(data, searchTerm)
  {
    var r := FilterRecords(data, searchTerm);
    SubsequenceOfSelf(data);
    assert |multiset(r)| <= |multiset(data)| by {
      MultisetSubsetSize(multiset(r), multiset(data));
    }
  }

  lemma {:induction false} SubsequenceOfSelf(s: seq<Record>)
    ensures IsSubsequence(s, s)
  {
    if s != [] {
      SubsequenceOfSelf(s[1..]);
    }
  }

  lemma MultisetSubsetSize(a: multiset<Record>, b: multiset<Record>)
    requires a <= b
    ensures |a| <= |b|
  {
    assert b == a + (b - a);
  }

  /** A term that is blank after trimming leaves the list exactly as loaded. */
  lemma BlankSearchKeepsAll(data: seq<Record>, searchTerm: string)
    requires AllSpace(searchTerm)
    ensures FilterRecords(data, searchTerm) == data
  {
    TrimEmptyIff(searchTerm);
  }

  /** A term that is not blank keeps exactly the matching rows, each as often as it was loaded. */
  lemma NonBlankSearchKeepsMatches(data: seq<Record>, searchTerm: string)
    requires !AllSpace(searchTerm)
    ensures forall x :: x in FilterRecords(data, searchTerm) <==> x in data && RecordMatches(x, Lower(searchTerm))
    ensures forall x :: (multiset(FilterRecords(data, searchTerm))[x] ==
                         if RecordMatches(x, Lower(searchTerm)) then multiset(data)[x] else 0)
  {
    TrimEmptyIff(searchTerm);
  }

  /** A null field never makes a row match. */
  lemma NullNeverMatches(needle: string)
    ensures !ValueMatches(Null, needle)
  {
  }

  lemma LowerCharKeepsSpace(c: char)
    ensures IsSpace(LowerChar(c)) <==> IsSpace(c)
  {
  }

  lemma LowerKeepsAllSpace(s: string)
    ensures AllSpace(Lower(s)) <==> AllSpace(s)
  {
    forall i | 0 <= i < |s| ensures IsSpace(Lower(s)[i]) <==> IsSpace(s[i]) {
      LowerCharKeepsSpace(s[i]);
    }
  }

  /** Searching is case-insensitive: lower-casing the term first changes nothing. */
  lemma SearchIgnoresCase(data: seq<Record>, searchTerm: string)
    ensures FilterRecords(data, Lower(searchTerm)) == FilterRecords(data, searchTerm)
  {
    TrimEmptyIff(searchTerm);
    TrimEmptyIff(Lower(searchTerm));
    LowerKeepsAllSpace(searchTerm);
    LowerIdempotent(searchTerm);
  }

  /** A row with a single field matches exactly when that field's value does. */
  lemma SingleFieldMatches(name: string, v: Value, needle: string)
    ensures RecordMatches(map[name := v], needle) <==> ValueMatches(v, needle)
  {
    var rec := map[name := v];
    assert v in rec.Values by {
      assert rec[name] == v;
    }
    assert forall x :: x in rec.Values ==> x == v;
  }

  /** A one-row list keeps its row exactly when the row matches. */
  lemma KeepMatchingOne(rec: Record, needle: string)
    ensures KeepMatching([rec], needle) == if RecordMatches(rec, needle) then [rec] else []
  {
    assert [rec][1..] == [];
  }

  /** Only the blankness test trims: a padded term searches for the padding too. */
  lemma PaddedTermIsNotTrimmed()
    ensures FilterRecords([map["grade" := Str("ab")]], "ab") == [map["grade" := Str("ab")]]
    ensures FilterRecords([map["grade" := Str("ab")]], " ab") == []
  {
    var rec := map["grade" := Str("ab")];
    NotBlank("ab", 0);
    NotBlank(" ab", 1);
    FieldAbMatches(rec);
    KeepMatchingOne(rec, Lower("ab"));
    KeepMatchingOne(rec, Lower(" ab"));
  }

  lemma NotBlank(t: string, i: int)
    requires 0 <= i < |t| && !IsSpace(t[i])
    ensures Trim(t) != ""
  {
    TrimEmptyIff(t);
  }

  lemma FieldAbMatches(rec: Record)
    requires rec == map["grade" := Str("ab")]
    ensures RecordMatches(rec, Lower("ab")) && !RecordMatches(rec, Lower(" ab"))
  {
    assert Lower("ab") == "ab";
    assert Lower(" ab") == " ab";
    assert Includes("ab", "ab") by {
      assert "ab"[0..2] == "ab";
    }
    assert !Includes("ab", " ab");
    SingleFieldMatches("grade", Str("ab"), "ab");
    SingleFieldMatches("grade", Str("ab"), " ab");
  }

  /** The page's search state: the loaded rows, the term, and the rows on show. */
  class SearchState {
    var carcassData: seq<Record>
    var searchTerm: string
    var filteredData: seq<Record>

    constructor ()
      ensures carcassData == [] && searchTerm == "" && filteredData == []
    {
      carcassData, searchTerm, filteredData := [], "", [];
    }

    /** The effect that runs whenever the term or the loaded rows change. */
    method ApplySearch()
      modifies this
      ensures carcassData == old(carcassData) && searchTerm == old(searchTerm)
      ensures filteredData == FilterRecords(carcassData, searchTerm)
    {
      if Trim(searchTerm) == "" {
        filteredData := carcassData;
      } else {
        var lowercasedSearch := Lower(searchTerm);
        filteredData := KeepMatching(carcassData, lowercasedSearch);
      }
    }

    /** Typing into the search box. */
    method SetSearchTerm(term: string)
      modifies this
      ensures carcassData == old(carcassData) && searchTerm == term
      ensures filteredData == FilterRecords(carcassData, term)
    {
      searchTerm := term;
      ApplySearch();
    }
  }

  // ---------------------------------------------------------------------------
  // "Last updated"

  datatype LastUpdatedLabel = Never | SecondsAgo(seconds: int) | MinutesAgo(minutes: int) | ClockTime(at: int)

  /** `formatLastUpdated`; `lastUpdated` and `now` are in milliseconds since the epoch. */
  function FormatLastUpdated(lastUpdated: Option<int>, now: int): (r: LastUpdatedLabel)
    ensures lastUpdated.None? <==> r == Never
    ensures lastUpdated.Some? && now - lastUpdated.value < 60000 ==>
      r.SecondsAgo? && r.seconds * 1000 <= now - lastUpdated.value < (r.seconds + 1) * 1000
    ensures lastUpdated.Some? && 60000 <= now - lastUpdated.value < 3600000 ==>
      r.MinutesAgo? && 1 <= r.minutes < 60
      && r.minutes * 60000 <= now - lastUpdated.value < (r.minutes + 1) * 60000
    ensures lastUpdated.Some? && 3600000 <= now - lastUpdated.value ==> r == ClockTime(lastUpdated.value)
  {
    match lastUpdated
    case None => Never
    case Some(t) =>
      var diff := (now - t) / 1000;
      if diff < 60 then SecondsAgo(diff)
      else if diff < 3600 then MinutesAgo(diff / 60)
      else ClockTime(t)
  }

  /** `text` is the decimal numeral of `n` followed by `unit`. */
  predicate ReadsAs(text: string, n: int, unit: string)
  {
    |unit| <= |text| && text[|text| - |unit|..] == unit && ParseInt(text[..|text| - |unit|]) == Some(n)
  }

  /** Only one text reads as `n` in `unit`: the one the template literal `${n}` writes. */
  lemma ReadsAsExactly(text: string, n: int, unit: string)
    requires ReadsAs(text, n, unit)
    ensures text == IntToString(n) + unit
  {
    var k := |text| - |unit|;
    ParseIntCanonical(text[..k], n);
    assert text == text[..k] + text[k..];
  }

  /** The string `formatLastUpdated` returns for a label; `None` for the locale-dependent
      clock time. */
  function LabelText(l: LastUpdatedLabel): (r: Option<string>)
    ensures r.None? <==> l.ClockTime?
    ensures l.Never? ==> r == Some("Никогда")
    ensures l.SecondsAgo? ==> r.Some? && ReadsAs(r.value, l.seconds, " сек. назад")
    ensures l.MinutesAgo? ==> r.Some? && ReadsAs(r.value, l.minutes, " мин. назад")
  {
    match l
    case Never => Some("Никогда")
    case SecondsAgo(s) =>
      IntToStringParses(s);
      var t := IntToString(s) + " сек. назад";
      assert t[..|t| - |" сек. назад"|] == IntToString(s);
      Some(t)
    case MinutesAgo(m) =>
      IntToStringParses(m);
      var t := IntToString(m) + " мин. назад";
      assert t[..|t| - |" мин. назад"|] == IntToString(m);
      Some(t)
    case ClockTime(_) => None
  }
}
