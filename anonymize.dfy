/** Anonymous names for the authors of a comment thread: `익명1`, `익명2`, … in the
    order in which each user first commented, over the comments and their direct
    replies. */
module Anonymize {
  import opened Text
  import opened Clock
  import opened Seqs

  /** A comment with its author, its local creation array `[y, mo, d, h, mi, s, …]`
      (month 1-based) and its direct replies (an absent list is empty). */
  datatype Comment = Comment(userId: int, createdAt: seq<int>, replies: seq<Comment>)

  /** The list `flattenComments` builds, by the loop that peels the last comment:
      each comment followed by its direct replies, one level deep. */
  function Flat(cs: seq<Comment>): seq<Comment>
    decreases |cs|
  {
    if cs == [] then []
    else Flat(cs[..|cs| - 1]) + [cs[|cs| - 1]] + cs[|cs| - 1].replies
  }

  /** Flattening a thread with one more comment in front puts it and its replies first. */
  lemma {:induction false} FlatCons(c: Comment, cs: seq<Comment>)
    ensures Flat([c] + cs) == [c] + c.replies + Flat(cs)
    decreases |cs|
  {
    if cs == [] {
      assert ([c] + cs)[..0] == [];
    } else {
      var cs' := cs[..|cs| - 1];
      assert ([c] + cs)[..|[c] + cs| - 1] == [c] + cs';
      FlatCons(c, cs');
    }
  }

  /** Every top-level comment and every direct reply is in the flat list, and
      nothing else is. */
  lemma {:induction false} FlatMembers(cs: seq<Comment>, x: Comment)
    ensures x in Flat(cs) <==> x in cs || exists c :: c in cs && x in c.replies
    decreases |cs|
  {
    if cs != [] {
      var cs' := cs[..|cs| - 1];
      var last := cs[|cs| - 1];
      FlatMembers(cs', x);
      assert cs == cs' + [last];
      if x in last.replies {
        assert last in cs;
      }
      if exists c :: c in cs && x in c.replies {
        var c :| c in cs && x in c.replies;
        if c != last {
          assert c in cs';
        }
      }
    }
  }

  /** There is one flat entry per comment and per direct reply. */
  function ThreadSize(cs: seq<Comment>): nat
    decreases |cs|
  {
    if cs == [] then 0 else ThreadSize(cs[..|cs| - 1]) + 1 + |cs[|cs| - 1].replies|
  }

  /** `flattenComments`: the push loop. */
  method FlattenComments(cs: seq<Comment>) returns (result: seq<Comment>)
    ensures result == Flat(cs)
    ensures |result| == ThreadSize(cs)
  {
    result := [];
    var i := 0;
    while i < |cs|
      invariant 0 <= i <= |cs|
      invariant result == Flat(cs[..i])
      invariant |result| == ThreadSize(cs[..i])
    {
      var c := cs[i];
      assert cs[..i + 1][..i] == cs[..i] && cs[..i + 1][i] == c;
      result := result + [c];
      if |c.replies| > 0 {
        result := result + c.replies;
      }
      i := i + 1;
    }
    assert cs[..|cs|] == cs;
  }

  /** The sort key of the comparator: `new Date(...created_at.slice(0, 6))` with the
      month made 0-based. No element is `now`; one element is a time value. */
  function CreatedTime(now: Instant): Comment -> int {
    (c: Comment) =>
      var a := c.createdAt;
      if |a| == 0 then now
      else if |a| == 1 then a[0]
      else MakeLocal(a[0], a[1] - 1, Part(a, 2, 1), Part(a, 3, 0), Part(a, 4, 0), Part(a, 5, 0), 0)
  }

  /** The author of a comment. */
  function UserOf(): Comment -> int {
    (c: Comment) => c.userId
  }

  /** `익명${n}`. */
  function AnonLabel(n: int): string {
    "익명" + IntToString(n)
  }

  /** Different counters give different labels. */
  lemma AnonLabelInjective(a: int, b: int)
    requires AnonLabel(a) == AnonLabel(b)
    ensures a == b
  {
    assert AnonLabel(a)[2..] == IntToString(a);
    assert AnonLabel(b)[2..] == IntToString(b);
    IntToStringInjective(a, b);
  }

  /** `m` labels the users of `s`: exactly they are keys, and the user in place `i`
      of the first-appearance order is `익명${i + 1}`. */
  ghost predicate LabelsOf(s: seq<Comment>, m: map<int, string>) {
    m.Keys == KeySet(s, UserOf()) &&
    forall i :: 0 <= i < |FirstKeys(s, UserOf())| ==>
      FirstKeys(s, UserOf())[i] in m && m[FirstKeys(s, UserOf())[i]] == AnonLabel(i + 1)
  }

  /** The map the labelling loop has built after the comments of `s`: a new user
      gets the next label, a user already seen changes nothing. */
  function Labels(s: seq<Comment>): map<int, string>
    decreases |s|
  {
    if s == [] then map[]
    else
      var m := Labels(s[..|s| - 1]);
      var u := s[|s| - 1].userId;
      if u in m then m else m[u := AnonLabel(|m| + 1)]
  }

  /** `Labels` gives the users of `s`, in first-appearance order, the labels
      `익명1`, `익명2`, …, one per distinct user. */
  lemma {:induction false} LabelsSpec(s: seq<Comment>)
    ensures LabelsOf(s, Labels(s))
    ensures |Labels(s)| == |FirstKeys(s, UserOf())|
    decreases |s|
  {
    if s != [] {
      var i := |s| - 1;
      assert s[..i + 1] == s;
      LabelsSpec(s[..i]);
      if s[i].userId in Labels(s[..i]) {
        LabelStepSeen(s, i, Labels(s[..i]));
      } else {
        LabelStepNew(s, i, Labels(s[..i]));
      }
    }
  }

  /** The labelling loop over the time-ordered list, with its counter. */
  method AssignLabels(s: seq<Comment>) returns (userMap: map<int, string>, counter: int)
    ensures userMap == Labels(s)
    ensures counter == |userMap| + 1
  {
    userMap := map[];
    counter := 1;
    var i := 0;
    while i < |s|
      invariant 0 <= i <= |s|
      invariant userMap == Labels(s[..i])
      invariant counter == |userMap| + 1
    {
      var c := s[i];
      assert s[..i + 1][..i] == s[..i] && s[..i + 1][i] == c;
      if c.userId !in userMap {
        userMap := userMap[c.userId := AnonLabel(counter)];
        counter := counter + 1;
      }
      i := i + 1;
    }
    assert s[..|s|] == s;
  }

  /** A turn of the labelling loop on a user already seen changes neither the map
      nor the order. */
  lemma {:induction false} LabelStepSeen(s: seq<Comment>, i: nat, m: map<int, string>)
    requires i < |s| && LabelsOf(s[..i], m) && s[i].userId in m
    ensures FirstKeys(s[..i + 1], UserOf()) == FirstKeys(s[..i], UserOf())
    ensures LabelsOf(s[..i + 1], m)
  {
    KeysStep(s, i, UserOf());
    assert UserOf()(s[i]) == s[i].userId;
    assert KeySet(s[..i + 1], UserOf()) == m.Keys;
  }

  /** A turn on a new user appends it to the order with the next label. */
  lemma {:induction false} LabelStepNew(s: seq<Comment>, i: nat, m: map<int, string>)
    requires i < |s| && LabelsOf(s[..i], m) && s[i].userId !in m
    ensures FirstKeys(s[..i + 1], UserOf()) == FirstKeys(s[..i], UserOf()) + [s[i].userId]
    ensures LabelsOf(s[..i + 1], m[s[i].userId := AnonLabel(|FirstKeys(s[..i], UserOf())| + 1)])
  {
    var u := s[i].userId;
    var fk := FirstKeys(s[..i], UserOf());
    var fk2 := FirstKeys(s[..i + 1], UserOf());
    KeysStep(s, i, UserOf());
    assert UserOf()(s[i]) == u;
    assert fk2 == fk + [u];
    var m' := m[u := AnonLabel(|fk| + 1)];
    forall j | 0 <= j < |fk2| ensures fk2[j] in m' && m'[fk2[j]] == AnonLabel(j + 1) {
      if j < |fk| {
        assert fk2[j] == fk[j] && fk[j] in m;
      }
    }
    assert m'.Keys == m.Keys + {u};
  }

  /** The thread in the order the labels are given: flattened, then stably sorted
      by creation time, earliest first. */
  function TimeOrdered(comments: seq<Comment>, now: Instant): seq<Comment> {
    SortByKey(Flat(comments), CreatedTime(now))
  }

  /** `anonymizeUsers`. The sort works on the flat copy, so the caller's list is a
      value this method cannot reorder. */
  method AnonymizeUsers(comments: seq<Comment>, now: Instant) returns (userMap: map<int, string>)
    ensures LabelsOf(TimeOrdered(comments, now), userMap)
    ensures |userMap| == |KeySet(Flat(comments), UserOf())|
  {
    var all := FlattenComments(comments);
    var sorted := SortByKey(all, CreatedTime(now));
    var counter;
    userMap, counter := AssignLabels(sorted);
    LabelsSpec(sorted);
    FirstKeysSpec(sorted, UserOf());
    DistinctCard(FirstKeys(sorted, UserOf()));
    KeySetPermutation(sorted, all, UserOf());
  }

  /** A sequence without repeats has as many distinct elements as entries. */
  lemma {:induction false} DistinctCard(s: seq<int>)
    requires Distinct(s)
    ensures |set x | x in s| == |s|
    decreases |s|
  {
    if s != [] {
      var s' := s[..|s| - 1];
      assert Distinct(s');
      DistinctCard(s');
      assert (set x | x in s) == (set x | x in s') + {s[|s| - 1]};
      assert s[|s| - 1] !in (set x | x in s');
    }
  }

  /** Distinct users get distinct labels, and every label is `익명` followed by a
      number from 1 to the number of users. */
  lemma LabelsDistinct(s: seq<Comment>, m: map<int, string>, u: int, v: int)
    requires LabelsOf(s, m)
    requires u in m && v in m && u != v
    ensures m[u] != m[v]
    ensures exists n :: 1 <= n <= |FirstKeys(s, UserOf())| && m[u] == AnonLabel(n)
  {
    FirstKeysSpec(s, UserOf());
    var fk := FirstKeys(s, UserOf());
    var i :| 0 <= i < |fk| && fk[i] == u;
    var j :| 0 <= j < |fk| && fk[j] == v;
    assert m[u] == AnonLabel(i + 1) && m[v] == AnonLabel(j + 1);
    if m[u] == m[v] {
      AnonLabelInjective(i + 1, j + 1);
    }
  }

  /** A user that comes earlier in the first-appearance order commented before
      every comment of a later one: the first comment of `fk[i]` precedes all
      comments of `fk[j]`. */
  lemma {:induction false} FirstKeysPositions(s: seq<Comment>, i: nat, j: nat)
    requires i < j < |FirstKeys(s, UserOf())|
    ensures exists p ::
      && 0 <= p < |s| && s[p].userId == FirstKeys(s, UserOf())[i]
      && (forall q :: 0 <= q < |s| && s[q].userId == FirstKeys(s, UserOf())[j] ==> p < q)
    decreases |s|
  {
    var s' := s[..|s| - 1];
    var x := s[|s| - 1];
    var fk' := FirstKeys(s', UserOf());
    var fk := FirstKeys(s, UserOf());
    assert fk == fk' + (if x.userId in KeySet(s', UserOf()) then [] else [x.userId]);
    FirstKeysSpec(s', UserOf());
    if j < |fk'| {
      FirstKeysPositions(s', i, j);
      var p :| 0 <= p < |s'| && s'[p].userId == fk'[i] &&
        (forall q :: 0 <= q < |s'| && s'[q].userId == fk'[j] ==> p < q);
      assert s[p] == s'[p];
      forall q | 0 <= q < |s| && s[q].userId == fk[j] ensures p < q {
        if q < |s'| {
          assert s'[q] == s[q];
        }
      }
    } else {
      assert fk[i] == fk'[i] && fk'[i] in fk';
      var c :| c in s' && c.userId == fk[i];
      var p :| 0 <= p < |s'| && s'[p] == c;
      assert s[p] == s'[p];
      forall q | 0 <= q < |s'| ensures s[q] == s'[q] && s'[q].userId in KeySet(s', UserOf()) {
        assert s'[q] in s';
      }
    }
  }

  /** Labels follow the earliest comment times: in the time-ordered thread, the
      user labelled `익명${i + 1}` has a comment no later than every comment of the
      user labelled `익명${j + 1}`, for `i < j`. */
  lemma LabelOrderFollowsTime(comments: seq<Comment>, now: Instant, i: nat, j: nat)
    requires i < j < |FirstKeys(TimeOrdered(comments, now), UserOf())|
    ensures var s := TimeOrdered(comments, now);
      var fk := FirstKeys(s, UserOf());
      exists p :: 0 <= p < |s| && s[p].userId == fk[i] &&
        (forall q :: 0 <= q < |s| && s[q].userId == fk[j] ==> CreatedTime(now)(s[p]) <= CreatedTime(now)(s[q]))
  {
    var s := TimeOrdered(comments, now);
    FirstKeysPositions(s, i, j);
  }

  /** `getAnonymousName`: the mapped label when it is truthy, else `익명${userId}`. */
  function AnonymousName(userId: int, userMap: map<int, string>): (name: string)
    ensures userId in userMap && userMap[userId] != "" ==> name == userMap[userId]
    ensures userId !in userMap ==> name == AnonLabel(userId)
    ensures name != ""
  {
    if userId in userMap && userMap[userId] != "" then userMap[userId] else AnonLabel(userId)
  }

  /** The fallback may repeat a label: a user without a label whose id is the
      number in another user's label is shown under that label. */
  lemma FallbackCollides(u: int, v: int, m: map<int, string>)
    requires u in m && m[u] == AnonLabel(v) && v !in m
    ensures u != v && AnonymousName(u, m) == AnonymousName(v, m)
  {
  }

  /** That is the only way two users share a name under a map of distinct,
      non-empty labels: exactly one of them is unlabelled. */
  lemma NameCollisionNeedsFallback(u: int, v: int, m: map<int, string>)
    requires u != v
    requires forall a, b :: a in m && b in m && a != b ==> m[a] != m[b]
    requires forall a :: a in m ==> m[a] != ""
    requires AnonymousName(u, m) == AnonymousName(v, m)
    ensures (u in m) != (v in m)
  {
    if u !in m && v !in m {
      AnonLabelInjective(u, v);
    }
  }

  /** An instance: two users labelled, and an unlabelled user whose id is 2 is
      shown as the second labelled user. */
  lemma FallbackCanCollide()
    ensures AnonymousName(9, map[5 := AnonLabel(1), 9 := AnonLabel(2)]) == AnonymousName(2, map[5 := AnonLabel(1), 9 := AnonLabel(2)])
  {
    FallbackCollides(9, 2, map[5 := AnonLabel(1), 9 := AnonLabel(2)]);
  }
}
