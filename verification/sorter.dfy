/** The sorter (`sortKeys` and `handleSortByKey`): a stable sort of the
    roster by one of three whitelisted numeric fields, ascending or
    descending, with a missing value counting as 0. Any other key leaves
    the roster as it is. */
module Sorter {
  import opened Lists
  import opened Users

  /** `sortKeys`, in the source's order. */
  const SortKeys: seq<Key> := [StudyMinutes, Score, ExperienceDays]

  /** The whitelisted keys as a closed type. */
  datatype SortKey = StudyMinutesKey | ScoreKey | ExperienceDaysKey

  /** `sortKeys.includes(key)`, returning the key when it is whitelisted. */
  function AsSortKey(key: Key): (r: Option<SortKey>)
    ensures r.Some? <==> key in SortKeys
    ensures key == StudyMinutes ==> r == Some(StudyMinutesKey)
    ensures key == Score ==> r == Some(ScoreKey)
    ensures key == ExperienceDays ==> r == Some(ExperienceDaysKey)
  {
    match key
    case StudyMinutes => Some(StudyMinutesKey)
    case Score => Some(ScoreKey)
    case ExperienceDays => Some(ExperienceDaysKey)
    case _ => None
  }

  /** `(user[key] as number) ?? 0` */
  function Value(p: Participant, key: SortKey): int {
    match key
    case StudyMinutesKey => p.studyMinutes.GetOr(0)
    case ScoreKey => p.score.GetOr(0)
    case ExperienceDaysKey => p.experienceDays.GetOr(0)
  }

  /** The number the comparator effectively orders by: the value when
      ascending (`a - b`), its negation when descending (`b - a`). */
  function Rank(p: Participant, key: SortKey, ascending: bool): int {
    if ascending then Value(p, key) else -Value(p, key)
  }

  /** Every earlier record ranks no higher than every later one. */
  ghost predicate Ranked(xs: seq<Participant>, key: SortKey, ascending: bool) {
    forall i, j :: 0 <= i < j < |xs| ==> Rank(xs[i], key, ascending) <= Rank(xs[j], key, ascending)
  }

  /** Values rise (ascending) or fall (descending) along the sequence. */
  ghost predicate OrderedBy(xs: seq<Participant>, key: SortKey, ascending: bool) {
    forall i, j :: 0 <= i < j < |xs| ==>
      if ascending then Value(xs[i], key) <= Value(xs[j], key)
      else Value(xs[i], key) >= Value(xs[j], key)
  }

  /** The selector for records whose sort value is `v`. */
  function ValueIs(key: SortKey, v: int): Participant -> bool {
    (p: Participant) => Value(p, key) == v
  }

  /** Places `x` before the first element that does not rank below it. */
  function Insert(x: Participant, ys: seq<Participant>, key: SortKey, ascending: bool): (r: seq<Participant>)
    ensures |r| == |ys| + 1
    ensures multiset(r) == multiset{x} + multiset(ys)
    ensures forall z :: z in r <==> z == x || z in ys
  {
    if |ys| == 0 || Rank(x, key, ascending) <= Rank(ys[0], key, ascending) then
      [x] + ys
    else
      assert ys == [ys[0]] + ys[1..];
      [ys[0]] + Insert(x, ys[1..], key, ascending)
  }

  /** Inserting into a ranked sequence keeps it ranked. */
  lemma {:induction false} InsertRanked(x: Participant, ys: seq<Participant>, key: SortKey, ascending: bool)
    requires Ranked(ys, key, ascending)
    ensures Ranked(Insert(x, ys, key, ascending), key, ascending)
  {
    if |ys| > 0 && Rank(x, key, ascending) > Rank(ys[0], key, ascending) {
      var rest := Insert(x, ys[1..], key, ascending);
      InsertRanked(x, ys[1..], key, ascending);
      forall z | z in rest
        ensures Rank(ys[0], key, ascending) <= Rank(z, key, ascending)
      {
        if z != x {
          var j :| 0 <= j < |ys[1..]| && ys[1..][j] == z;
          assert ys[j + 1] == z;
        }
      }
      assert Insert(x, ys, key, ascending) == [ys[0]] + rest;
    }
  }

  /** `x` lands ahead of every element of `ys` that has its value, which
      is what keeps the sort stable. */
  lemma {:induction false} InsertStable(x: Participant, ys: seq<Participant>, key: SortKey, ascending: bool, v: int)
    ensures Filter(Insert(x, ys, key, ascending), ValueIs(key, v)) ==
            (if Value(x, key) == v then [x] else []) + Filter(ys, ValueIs(key, v))
  {
    var p := ValueIs(key, v);
    var hit: seq<Participant> := if Value(x, key) == v then [x] else [];
    FilterSingleton(x, p);
    if |ys| == 0 || Rank(x, key, ascending) <= Rank(ys[0], key, ascending) {
      FilterAppend([x], ys, p);
    } else {
      var y0, rest := ys[0], ys[1..];
      var ins := Insert(x, rest, key, ascending);
      assert Insert(x, ys, key, ascending) == [y0] + ins;
      InsertStable(x, rest, key, ascending, v);
      FilterAppend([y0], ins, p);
      FilterAppend([y0], rest, p);
      FilterSingleton(y0, p);
      assert [y0] + rest == ys;
      // `y0` ranks strictly below `x`, so at most one of them has value `v`
      assert Value(y0, key) != Value(x, key);
    }
  }

  /** Stable insertion sort by rank. */
  function Sort(xs: seq<Participant>, key: SortKey, ascending: bool): (r: seq<Participant>)
    ensures multiset(r) == multiset(xs)
    ensures Ranked(r, key, ascending)
    ensures forall v :: Filter(r, ValueIs(key, v)) == Filter(xs, ValueIs(key, v))
  {
    if |xs| == 0 then []
    else
      var rest := Sort(xs[1..], key, ascending);
      assert xs == [xs[0]] + xs[1..];
      InsertRanked(xs[0], rest, key, ascending);
      SortStep(xs, rest, key, ascending);
      Insert(xs[0], rest, key, ascending)
  }

  lemma SortStep(xs: seq<Participant>, rest: seq<Participant>, key: SortKey, ascending: bool)
    requires |xs| > 0
    requires forall v :: Filter(rest, ValueIs(key, v)) == Filter(xs[1..], ValueIs(key, v))
    ensures forall v :: Filter(Insert(xs[0], rest, key, ascending), ValueIs(key, v)) == Filter(xs, ValueIs(key, v))
  {
    forall v
      ensures Filter(Insert(xs[0], rest, key, ascending), ValueIs(key, v)) == Filter(xs, ValueIs(key, v))
    {
      InsertStable(xs[0], rest, key, ascending, v);
      FilterAppend([xs[0]], xs[1..], ValueIs(key, v));
      assert [xs[0]] + xs[1..] == xs;
    }
  }

  /** `handleSortByKey(key, isAscending)` applied to a roster. */
  function SortByKey(roster: seq<Participant>, key: Key, ascending: bool): (r: seq<Participant>)
    ensures key !in SortKeys ==> r == roster
    ensures key in SortKeys ==>
      && multiset(r) == multiset(roster)
      && OrderedBy(r, AsSortKey(key).value, ascending)
      // stability: records with equal values keep their relative order
      && forall v :: Filter(r, ValueIs(AsSortKey(key).value, v)) == Filter(roster, ValueIs(AsSortKey(key).value, v))
  {
    match AsSortKey(key)
    case None => roster
    case Some(k) =>
      var r := Sort(roster, k, ascending);
      RankedIsOrdered(r, k, ascending);
      r
  }

  lemma RankedIsOrdered(xs: seq<Participant>, key: SortKey, ascending: bool)
    requires Ranked(xs, key, ascending)
    ensures OrderedBy(xs, key, ascending)
  {
  }

  /** Sorting permutes the records, so it keeps the roster's ids (and
      with them their distinctness). */
  lemma SortKeepsIds(roster: seq<Participant>, key: Key, ascending: bool)
    ensures multiset(Ids(SortByKey(roster, key, ascending))) == multiset(Ids(roster))
  {
    if key in SortKeys {
      SortIds(roster, AsSortKey(key).value, ascending);
    }
  }

  lemma {:induction false} SortIds(xs: seq<Participant>, key: SortKey, ascending: bool)
    ensures multiset(Ids(Sort(xs, key, ascending))) == multiset(Ids(xs))
  {
    if |xs| > 0 {
      SortIds(xs[1..], key, ascending);
      InsertIds(xs[0], Sort(xs[1..], key, ascending), key, ascending);
      IdsCons(xs[0], xs[1..]);
      assert [xs[0]] + xs[1..] == xs;
    }
  }

  lemma {:induction false} InsertIds(x: Participant, ys: seq<Participant>, key: SortKey, ascending: bool)
    ensures multiset(Ids(Insert(x, ys, key, ascending))) == multiset{x.id} + multiset(Ids(ys))
  {
    if |ys| == 0 || Rank(x, key, ascending) <= Rank(ys[0], key, ascending) {
      IdsCons(x, ys);
    } else {
      InsertIds(x, ys[1..], key, ascending);
      IdsCons(ys[0], Insert(x, ys[1..], key, ascending));
      IdsCons(ys[0], ys[1..]);
      assert [ys[0]] + ys[1..] == ys;
    }
  }
}
