/** The admin suggestions page: the list request is built from the filters, every
    suggestion record is normalised with defaults, and the list is bucketed by the
    day it was filed, each bucket newest first and the days latest first. */
module AdminSuggestions {
  import opened Wrappers
  import opened Text
  import opened Clock
  import opened Seqs
  import opened AdminDates

  /** The filter inputs, as the text the admin typed or selected. */
  datatype Filters = Filters(category: string, location: string, isAnswered: string, userId: string, suggestId: string)

  /** URL query parameters, in the order they were set. */
  type Params = seq<(string, string)>

  /** A parameter the query keeps: a non-empty value, and for `is_answered` only
      the two literal booleans. */
  predicate Included(p: (string, string)) {
    p.1 != "" && (p.0 == "is_answered" ==> p.1 == "true" || p.1 == "false")
  }

  /** Every filter as a candidate parameter, in the order `buildQuery` tests them. */
  function Candidates(f: Filters): Params {
    [("suggest_id", f.suggestId), ("user_id", f.userId), ("category", f.category),
     ("location", f.location), ("is_answered", f.isAnswered)]
  }

  /** `params.toString()`: `name=value` pairs joined by `&`, each value passed
      through the form encoding `encode`. */
  function Serialize(ps: Params, encode: string -> string): (qs: string)
    ensures qs == "" <==> ps == []
    decreases |ps|
  {
    if ps == [] then ""
    else
      var head := ps[0].0 + "=" + encode(ps[0].1);
      assert head[|ps[0].0|] == '=';
      if |ps| == 1 then head else head + "&" + Serialize(ps[1..], encode)
  }

  const ListPath := "/api/suggestions"

  /** The request path for a parameter list: the bare path when it is empty. */
  function QueryUrl(ps: Params, encode: string -> string): string {
    var qs := Serialize(ps, encode);
    if qs != "" then ListPath + "?" + qs else ListPath
  }

  /** `buildQuery`: each filter is set in turn when it applies. */
  method BuildQuery(f: Filters, encode: string -> string) returns (url: string)
    ensures url == QueryUrl(Filter(Candidates(f), Included), encode)
  {
    var params: Params := [];
    if f.suggestId != "" {
      params := params + [("suggest_id", f.suggestId)];
    }
    assert params == (if f.suggestId != "" then [("suggest_id", f.suggestId)] else []);
    ghost var p1 := params;
    if f.userId != "" {
      params := params + [("user_id", f.userId)];
    }
    assert params == p1 + (if f.userId != "" then [("user_id", f.userId)] else []);
    ghost var p2 := params;
    if f.category != "" {
      params := params + [("category", f.category)];
    }
    assert params == p2 + (if f.category != "" then [("category", f.category)] else []);
    ghost var p3 := params;
    if f.location != "" {
      params := params + [("location", f.location)];
    }
    assert params == p3 + (if f.location != "" then [("location", f.location)] else []);
    ghost var p4 := params;
    if f.isAnswered == "true" || f.isAnswered == "false" {
      params := params + [("is_answered", f.isAnswered)];
    }
    assert params == p4 + (if f.isAnswered == "true" || f.isAnswered == "false" then [("is_answered", f.isAnswered)] else []);
    QueryFilter(f);
    var qs := Serialize(params, encode);
    url := if qs != "" then ListPath + "?" + qs else ListPath;
  }

  /** The five candidate tests, one after the other, give the filtered candidates. */
  lemma QueryFilter(f: Filters)
    ensures Filter(Candidates(f), Included) ==
      (if f.suggestId != "" then [("suggest_id", f.suggestId)] else []) +
      (if f.userId != "" then [("user_id", f.userId)] else []) +
      (if f.category != "" then [("category", f.category)] else []) +
      (if f.location != "" then [("location", f.location)] else []) +
      (if f.isAnswered == "true" || f.isAnswered == "false" then [("is_answered", f.isAnswered)] else [])
  {
    var c := Candidates(f);
    assert c == [c[0]] + [c[1]] + [c[2]] + [c[3]] + [c[4]];
    assert Filter(c, Included) ==
      Filter([c[0]], Included) + Filter([c[1]], Included) + Filter([c[2]], Included) +
      Filter([c[3]], Included) + Filter([c[4]], Included) by {
      FilterConcat([c[0]] + [c[1]] + [c[2]] + [c[3]], [c[4]], Included);
      FilterConcat([c[0]] + [c[1]] + [c[2]], [c[3]], Included);
      FilterConcat([c[0]] + [c[1]], [c[2]], Included);
      FilterConcat([c[0]], [c[1]], Included);
    }
    CandidatesIncluded(f);
    FilterSingleton(c[0], Included);
    FilterSingleton(c[1], Included);
    FilterSingleton(c[2], Included);
    FilterSingleton(c[3], Included);
    FilterSingleton(c[4], Included);
  }

  /** Which candidates the query keeps. */
  lemma CandidatesIncluded(f: Filters)
    ensures Included(Candidates(f)[0]) <==> f.suggestId != ""
    ensures Included(Candidates(f)[1]) <==> f.userId != ""
    ensures Included(Candidates(f)[2]) <==> f.category != ""
    ensures Included(Candidates(f)[3]) <==> f.location != ""
    ensures Included(Candidates(f)[4]) <==> f.isAnswered == "true" || f.isAnswered == "false"
  {
    assert |"is_answered"| == 11 && |"suggest_id"| == 10 && |"user_id"| == 7 && |"category"| == 8 && |"location"| == 8;
  }

  lemma FilterSingleton<T(!new)>(x: T, p: T -> bool)
    ensures Filter([x], p) == if p(x) then [x] else []
  {
    assert [x][..0] == [];
  }

  /** With no filter applying the path has no `?` at all; otherwise the query holds
      exactly the applying filters, in the fixed order, with `is_answered` only as
      `true` or `false`. */
  lemma QuerySpec(f: Filters, encode: string -> string)
    ensures Filter(Candidates(f), Included) == [] ==> QueryUrl(Filter(Candidates(f), Included), encode) == ListPath
    ensures Filter(Candidates(f), Included) != [] ==>
      QueryUrl(Filter(Candidates(f), Included), encode) ==
        ListPath + "?" + Serialize(Filter(Candidates(f), Included), encode)
    ensures forall p :: p in Filter(Candidates(f), Included) ==> p.1 != ""
    ensures ("is_answered", f.isAnswered) in Filter(Candidates(f), Included) <==>
      f.isAnswered == "true" || f.isAnswered == "false"
    ensures ("category", f.category) in Filter(Candidates(f), Included) <==> f.category != ""
  {
    assert |"is_answered"| == 11 && |"category"| == 8;
    assert Candidates(f)[4] == ("is_answered", f.isAnswered);
    assert Candidates(f)[2] == ("category", f.category);
  }

  /** The server's creation value: a date array, a string, or absent. */
  datatype Stamp = Missing | Parts(parts: seq<int>) | Text(text: string)

  /** A record of the list response. Each field is given as the values of its
      alternative names, in the order the page tries them (for the creation
      date: `createdAt`, `created_at`, `created_date`, `created`). */
  datatype RawSuggestion = RawSuggestion(
    id: seq<Option<int>>,
    userId: seq<Option<int>>,
    category: Option<string>,
    location: Option<string>,
    answered: seq<Option<bool>>,
    title: seq<Option<string>>,
    content: seq<Option<string>>,
    created: seq<Stamp>)

  datatype Suggestion = Suggestion(
    id: Option<int>,
    userId: Option<int>,
    category: string,
    location: string,
    isAnswered: bool,
    title: string,
    content: string,
    createdAt: Stamp)

  /** `a ?? b ?? … ?? d`: the first present value, else the default. */
  function Nullish<T>(alts: seq<Option<T>>, d: T): (r: T)
    ensures (r == d && forall i :: 0 <= i < |alts| ==> alts[i].None?) ||
      exists i :: 0 <= i < |alts| && alts[i] == Some(r) && forall j :: 0 <= j < i ==> alts[j].None?
    decreases |alts|
  {
    if alts == [] then d
    else if alts[0].Some? then alts[0].value
    else
      var r := Nullish(alts[1..], d);
      assert forall i :: 1 <= i < |alts| ==> alts[i] == alts[1..][i - 1];
      r
  }

  /** `a ?? b ?? …` with no default: the first present value, if any. */
  function FirstSome<T>(alts: seq<Option<T>>): (r: Option<T>)
    ensures r.None? <==> forall i :: 0 <= i < |alts| ==> alts[i].None?
    ensures r.Some? ==> r in alts
    decreases |alts|
  {
    if alts == [] then None
    else if alts[0].Some? then alts[0]
    else
      var r := FirstSome(alts[1..]);
      assert forall i :: 1 <= i < |alts| ==> alts[i] == alts[1..][i - 1];
      r
  }

  /** The first of several `??` alternatives that is present wins. */
  lemma {:induction false} NullishFirst<T>(alts: seq<Option<T>>, d: T, i: nat)
    requires i < |alts| && alts[i].Some? && forall j :: 0 <= j < i ==> alts[j].None?
    ensures Nullish(alts, d) == alts[i].value
    decreases i
  {
    if i > 0 {
      NullishFirst(alts[1..], d, i - 1);
    }
  }

  /** A value `||` accepts: an array always, a string when non-empty. */
  predicate Truthy(s: Stamp) {
    s.Parts? || (s.Text? && s.text != "")
  }

  /** `a || b || … || []`. */
  function FirstTruthy(alts: seq<Stamp>): (r: Stamp)
    ensures Truthy(r) || r == Parts([])
    ensures r == Parts([]) || r in alts
    decreases |alts|
  {
    if alts == [] then Parts([])
    else if Truthy(alts[0]) then alts[0]
    else FirstTruthy(alts[1..])
  }

  /** `safeNormalizeSuggestion`. */
  function Normalize(raw: RawSuggestion): Suggestion {
    Suggestion(
      FirstSome(raw.id), FirstSome(raw.userId),
      if raw.category.Some? then raw.category.value else "",
      if raw.location.Some? then raw.location.value else "",
      Nullish(raw.answered, false),
      Nullish(raw.title, ""), Nullish(raw.content, ""),
      FirstTruthy(raw.created))
  }

  /** With every field missing, the normalised record is unanswered with empty
      texts and an empty creation array. */
  lemma NormalizeDefaults(raw: RawSuggestion)
    requires raw.category.None? && raw.location.None?
    requires forall i :: 0 <= i < |raw.answered| ==> raw.answered[i].None?
    requires forall i :: 0 <= i < |raw.title| ==> raw.title[i].None?
    requires forall i :: 0 <= i < |raw.content| ==> raw.content[i].None?
    requires forall i :: 0 <= i < |raw.created| ==> !Truthy(raw.created[i])
    ensures !Normalize(raw).isAnswered
    ensures Normalize(raw).category == "" && Normalize(raw).location == ""
    ensures Normalize(raw).title == "" && Normalize(raw).content == ""
    ensures Normalize(raw).createdAt == Parts([])
  {
    NoneDefault(raw.answered, false);
    NoneDefault(raw.title, "");
    NoneDefault(raw.content, "");
    NoTruthy(raw.created);
  }

  lemma {:induction false} NoneDefault<T>(alts: seq<Option<T>>, d: T)
    requires forall i :: 0 <= i < |alts| ==> alts[i].None?
    ensures Nullish(alts, d) == d
    decreases |alts|
  {
    if alts != [] {
      NoneDefault(alts[1..], d);
    }
  }

  lemma {:induction false} NoTruthy(alts: seq<Stamp>)
    requires forall i :: 0 <= i < |alts| ==> !Truthy(alts[i])
    ensures FirstTruthy(alts) == Parts([])
    decreases |alts|
  {
    if alts != [] {
      NoTruthy(alts[1..]);
    }
  }

  /** `formatDateOnly`: `''` unless the value is an array of at least three
      elements, then `YYYY-MM-DD`. */
  function DateOnly(s: Stamp): (t: string)
    ensures !(s.Parts? && |s.parts| >= 3) ==> t == ""
  {
    if s.Parts? && |s.parts| >= 3 then DateOnlyText(s.parts) else ""
  }

  /** `formatFullDate`: `''` for a non-array. */
  function FullDate(s: Stamp): string {
    FullDateText(if s.Parts? then Some(s.parts) else None)
  }

  /** `mo || 1`, `d || 1`: a missing or zero part is 1. */
  function Or1(a: seq<int>, i: nat): int {
    var v := Part(a, i, 0);
    if v == 0 then 1 else v
  }

  /** `toDate(arr).getTime()`: the epoch for a non-array; otherwise the local time
      of the 1-based month with missing day and month 1 and missing hour, minute
      and second 0. An empty array has no year, an Invalid Date, counted as 0. */
  function Time(s: Stamp): Instant {
    match s
    case Parts(a) =>
      if a == [] then 0
      else MakeLocal(a[0], Or1(a, 1) - 1, Or1(a, 2), Part(a, 3, 0), Part(a, 4, 0), Part(a, 5, 0), 0)
    case _ => 0
  }

  /** The bucket name of a suggestion. */
  function DayKey(s: Suggestion): string {
    DateOnly(s.createdAt)
  }

  /** The in-bucket sort key, newest first. */
  function TimeKey(s: Suggestion): int {
    Time(s.createdAt)
  }

  /** `toDate` of a value that is not an array is the epoch. */
  lemma TimeNonArray(t: string)
    ensures Time(Missing) == 0 && Time(Text(t)) == 0
    ensures Time(Parts([])) == 0
  {
  }

  /** A full date array gives the instant of its fields. */
  lemma TimeFields(y: int, mo: int, d: int, h: int, mi: int)
    requires 1 <= mo <= 12 && 1 <= d && 0 <= h < 24 && 0 <= mi < 60
    ensures Time(Parts([y, mo, d, h, mi])) == MakeLocal(y, mo - 1, d, h, mi, 0, 0)
    ensures DayNumber(Time(Parts([y, mo, d, h, mi]))) == DaysFromCivil(FullYear(y), mo, 1) + d - 1
    ensures Hours(Time(Parts([y, mo, d, h, mi]))) == h
  {
    MakeLocalFields(y, mo - 1, d, h, mi);
  }

  /** `raw.map(safeNormalizeSuggestion)`. */
  function NormalizeAll(raw: seq<RawSuggestion>): seq<Suggestion> {
    seq(|raw|, i requires 0 <= i < |raw| => Normalize(raw[i]))
  }

  /** A bucket as the page shows it. */
  function SortedBucket(ss: seq<Suggestion>, day: string): seq<Suggestion> {
    SortByKeyDesc(Bucket(ss, DayKey, day), TimeKey)
  }

  const DefaultError := "요청 처리 중 오류가 발생했습니다."

  /** `parseError`: the first non-empty text of the failure, tried in the order
      `data.message`, `data.error`, the body when it is a string, and the error's own
      message (an absent or non-string candidate is passed as `""`), else the
      default text. */
  function ParseError(texts: seq<string>): (r: string)
    ensures r != ""
    ensures (forall i :: 0 <= i < |texts| ==> texts[i] == "") ==> r == DefaultError
    ensures (r == DefaultError && forall i :: 0 <= i < |texts| ==> texts[i] == "") ||
      exists i :: 0 <= i < |texts| && texts[i] == r && forall j :: 0 <= j < i ==> texts[j] == ""
    decreases |texts|
  {
    if texts == [] then DefaultError
    else if texts[0] != "" then texts[0]
    else
      var r := ParseError(texts[1..]);
      assert forall i :: 1 <= i < |texts| ==> texts[i] == texts[1..][i - 1];
      r
  }

  class Page {
    var loading: bool
    var error: string
    var grouped: map<string, seq<Suggestion>>
    var sortedDates: seq<string>
    var filters: Filters

    constructor()
      ensures loading && error == "" && grouped == map[] && sortedDates == []
      ensures filters == Filters("", "", "", "", "")
    {
      loading, error := true, "";
      grouped, sortedDates := map[], [];
      filters := Filters("", "", "", "", "");
    }

    /** `fetchSuggestions` once the list request is answered: `response` is the
        list, or a failure with the candidate texts `failure` of `parseError`. The records are
        normalised, bucketed by filing day, each bucket is sorted newest first, and
        the day names latest first. A failure shows its text and keeps the old
        buckets. */
    method Load(response: Fetch<seq<RawSuggestion>>, failure: seq<string>)
      modifies this
      ensures !loading && filters == old(filters)
      ensures response.Failed? ==> error == ParseError(failure) && grouped == old(grouped) && sortedDates == old(sortedDates)
      ensures response.Fetched? ==>
        var ss := NormalizeAll(response.body);
        error == "" &&
        grouped.Keys == KeySet(ss, DayKey) &&
        (forall d :: d in grouped ==> grouped[d] == SortedBucket(ss, d)) &&
        sortedDates == SortByKeyDesc(FirstKeys(ss, DayKey), DateSortValue)
    {
      loading, error := true, "";
      if response.Failed? {
        error := ParseError(failure);
        loading := false;
        return;
      }
      var ss := NormalizeAll(response.body);
      var order, groups := GroupBy(ss, DayKey);
      FirstKeysSpec(ss, DayKey);
      var sortBucket := (b: seq<Suggestion>) => SortByKeyDesc(b, TimeKey);
      var sorted := UpdateListed(groups, order, sortBucket);
      forall d | d in sorted
        ensures sorted[d] == SortedBucket(ss, d)
      {
        assert d in order;
        assert sorted[d] == sortBucket(Bucket(ss, DayKey, d));
      }
      grouped := sorted;
      sortedDates := SortByKeyDesc(order, DateSortValue);
      loading := false;
    }
  }

  /** Every suggestion is in exactly one bucket, that of its filing day, each bucket
      newest first; the day names are distinct, name every bucket, and run latest
      first. */
  lemma BucketsSpec(ss: seq<Suggestion>, day: string, s: Suggestion)
    ensures multiset(SortedBucket(ss, day))[s] == if DayKey(s) == day then multiset(ss)[s] else 0
    ensures NonIncreasingBy(SortedBucket(ss, day), TimeKey)
    ensures Distinct(FirstKeys(ss, DayKey))
    ensures forall d :: d in FirstKeys(ss, DayKey) <==> d in KeySet(ss, DayKey)
    ensures NonIncreasingBy(SortByKeyDesc(FirstKeys(ss, DayKey), DateSortValue), DateSortValue)
  {
    BucketCount(ss, DayKey, day, s);
    FirstKeysSpec(ss, DayKey);
  }
}
