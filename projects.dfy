/**
 * The pure pieces of the project settings service
 * (api/chalicelib/core/projects.py): the validation of conditional-capture
 * conditions, the plan that syncs incoming conditions with the stored ones,
 * the sample-rate rule of the capture status, and the SET list of the
 * generic project update.  The database is not modelled: what a query would
 * read is a parameter, and what it would write is the value returned.
 */
module Projects {
  import opened Wrappers
  import JsString

  /** A condition of conditional capture; the id is `None` for a condition not stored yet. */
  datatype Condition = Condition(conditionId: Option<int>, name: string)

  function Names(conditions: seq<Condition>): (names: seq<string>)
    ensures |names| == |conditions|
    ensures forall i :: 0 <= i < |conditions| ==> names[i] == conditions[i].name
  {
    if |conditions| == 0 then [] else [conditions[0].name] + Names(conditions[1..])
  }

  // ---------------------------------------------------------------------------
  // str.strip()

  /** `c.isspace()` in Python: the characters `str.strip()` removes. */
  predicate IsPySpace(c: char) {
    || ('\t' <= c <= '\r') || ('\U{001C}' <= c <= '\U{001F}') || c == ' '
    || c == '\U{0085}' || c == '\U{00A0}' || c == '\U{1680}'
    || ('\U{2000}' <= c <= '\U{200A}') || c == '\U{2028}' || c == '\U{2029}'
    || c == '\U{202F}' || c == '\U{205F}' || c == '\U{3000}'
  }

  predicate AllPySpace(s: string) {
    forall i :: 0 <= i < |s| ==> IsPySpace(s[i])
  }

  /** `s.lstrip()`: the longest suffix of `s` that does not begin with white space. */
  function StripStart(s: string): (r: string)
    ensures |r| <= |s| && r == s[|s| - |r|..]
    ensures forall k :: 0 <= k < |s| - |r| ==> IsPySpace(s[k])
    ensures r == [] || !IsPySpace(r[0])
  {
    if |s| > 0 && IsPySpace(s[0]) then StripStart(s[1..]) else s
  }

  /** `s.rstrip()`: the longest prefix of `s` that does not end with white space. */
  function StripEnd(s: string): (r: string)
    ensures |r| <= |s| && r == s[..|r|]
    ensures forall k :: |r| <= k < |s| ==> IsPySpace(s[k])
    ensures r == [] || !IsPySpace(r[|r| - 1])
  {
    if |s| > 0 && IsPySpace(s[|s| - 1]) then StripEnd(s[..|s| - 1]) else s
  }

  /** `s.strip()`: neither starts nor ends with white space (see `StripRemovesOuterSpace`). */
  function Strip(s: string): (r: string)
    ensures r == [] || (!IsPySpace(r[0]) && !IsPySpace(r[|r| - 1]))
  {
    StripEnd(StripStart(s))
  }

  /**
   * `s.strip()` is `s` without its leading and its trailing white space: its
   * text starts where the leading run ends, and everything before and after
   * it is white space.
   */
  lemma StripRemovesOuterSpace(s: string)
    ensures var a := |s| - |StripStart(s)|;
            var r := Strip(s);
            && a + |r| <= |s| && (forall k :: 0 <= k < |r| ==> r[k] == s[a + k])
            && (forall k :: 0 <= k < a ==> IsPySpace(s[k]))
            && (forall k :: a + |r| <= k < |s| ==> IsPySpace(s[k]))
  {
    var t := StripStart(s);
    var r := StripEnd(t);
    assert Strip(s) == r;
    JsString.OuterRuns(s, t, r, IsPySpace);
  }

  lemma {:induction false} StripStartEmptyIff(s: string)
    ensures StripStart(s) == "" <==> AllPySpace(s)
    ensures StripStart(s) != "" ==> !IsPySpace(StripStart(s)[0])
  {
    if |s| > 0 && IsPySpace(s[0]) {
      StripStartEmptyIff(s[1..]);
      assert AllPySpace(s) <==> AllPySpace(s[1..]) by {
        if AllPySpace(s[1..]) {
          forall i | 1 <= i < |s| ensures IsPySpace(s[i]) { assert s[i] == s[1..][i - 1]; }
        }
      }
    }
  }

  lemma {:induction false} StripEndEmptyIff(s: string)
    ensures StripEnd(s) == "" <==> AllPySpace(s)
  {
    if |s| > 0 && IsPySpace(s[|s| - 1]) {
      var t := s[..|s| - 1];
      StripEndEmptyIff(t);
      assert AllPySpace(s) <==> AllPySpace(t) by {
        if AllPySpace(t) {
          forall i | 0 <= i < |s| - 1 ensures IsPySpace(s[i]) { assert s[i] == t[i]; }
        }
      }
    }
  }

  /** A name strips to the empty string exactly when all of it is white space. */
  lemma StripIsEmptyIff(s: string)
    ensures Strip(s) == "" <==> AllPySpace(s)
  {
    StripStartEmptyIff(s);
    StripEndEmptyIff(StripStart(s));
  }

  // ---------------------------------------------------------------------------
  // validate_conditions

  /** How many times `n` occurs in `names`. */
  function Count(names: seq<string>, n: string): nat {
    multiset(names)[n]
  }

  /** The keys of `Counter(names)`: each name once, in order of first occurrence. */
  function CounterKeys(names: seq<string>): seq<string>
    decreases |names|
  {
    if |names| == 0 then []
    else
      var keys := CounterKeys(names[..|names| - 1]);
      if names[|names| - 1] in keys then keys else keys + [names[|names| - 1]]
  }

  /** The index of the first occurrence of `n`. */
  function FirstIndex(names: seq<string>, n: string): nat
    requires n in names
    ensures FirstIndex(names, n) < |names| && names[FirstIndex(names, n)] == n
  {
    if names[0] == n then 0 else 1 + FirstIndex(names[1..], n)
  }

  lemma {:induction false} FirstIndexInPrefix(names: seq<string>, k: nat, n: string)
    requires k <= |names| && n in names[..k]
    ensures n in names && FirstIndex(names, n) == FirstIndex(names[..k], n)
  {
    assert names[..k][0] == names[0];
    if names[0] != n {
      assert names[1..][..k - 1] == names[..k][1..];
      FirstIndexInPrefix(names[1..], k - 1, n);
    }
  }

  lemma {:induction false} FirstIndexAfterPrefix(names: seq<string>, k: nat, n: string)
    requires k < |names| && names[k] == n && n !in names[..k]
    ensures FirstIndex(names, n) == k
  {
    if k > 0 {
      assert names[0] == names[..k][0] && names[0] != n;
      assert names[1..][..k - 1] == names[..k][1..];
      FirstIndexAfterPrefix(names[1..], k - 1, n);
    }
  }

  /** The names of `d` occur in `names`, each once in `d`, in order of first occurrence. */
  predicate InFirstOccurrenceOrder(d: seq<string>, names: seq<string>) {
    && (forall x :: x in d ==> x in names)
    && (forall i, j :: 0 <= i < j < |d| ==> d[i] in names && d[j] in names && FirstIndex(names, d[i]) < FirstIndex(names, d[j]))
  }

  /** The counter keys are the names, without repeats, in order of first occurrence. */
  lemma {:induction false} CounterKeysOrder(names: seq<string>)
    ensures forall x :: x in CounterKeys(names) <==> x in names
    ensures InFirstOccurrenceOrder(CounterKeys(names), names)
    decreases |names|
  {
    if |names| > 0 {
      var pre := names[..|names| - 1];
      var last := names[|names| - 1];
      var keys := CounterKeys(pre);
      CounterKeysOrder(pre);
      assert names == pre + [last];
      forall x | x in keys ensures x in names && FirstIndex(names, x) == FirstIndex(pre, x) {
        FirstIndexInPrefix(names, |names| - 1, x);
      }
      if last !in keys {
        FirstIndexAfterPrefix(names, |names| - 1, last);
        var k2 := keys + [last];
        forall i, j | 0 <= i < j < |k2|
          ensures k2[i] in names && k2[j] in names && FirstIndex(names, k2[i]) < FirstIndex(names, k2[j])
        {
          assert k2[i] == keys[i];
          if j < |keys| {
            assert k2[j] == keys[j];
          } else {
            assert FirstIndex(pre, keys[i]) < |pre|;
          }
        }
      }
    }
  }

  /** `[name for name, count in counts.items() if count > 1]`, walking the counter keys `keys`. */
  function RepeatedAmong(keys: seq<string>, names: seq<string>): seq<string>
    decreases |keys|
  {
    if |keys| == 0 then []
    else (if Count(names, keys[0]) > 1 then [keys[0]] else []) + RepeatedAmong(keys[1..], names)
  }

  /** The duplicates that `validate_conditions` lists. */
  function Duplicates(names: seq<string>): seq<string> {
    RepeatedAmong(CounterKeys(names), names)
  }

  lemma {:induction false} RepeatedAmongMembers(keys: seq<string>, names: seq<string>)
    ensures forall x :: x in RepeatedAmong(keys, names) <==> x in keys && Count(names, x) > 1
    decreases |keys|
  {
    if |keys| > 0 {
      RepeatedAmongMembers(keys[1..], names);
      assert keys == [keys[0]] + keys[1..];
    }
  }

  lemma OrderTail(d: seq<string>, names: seq<string>)
    requires |d| > 0 && InFirstOccurrenceOrder(d, names)
    ensures InFirstOccurrenceOrder(d[1..], names)
    ensures forall y :: y in d[1..] ==> d[0] in names && y in names && FirstIndex(names, d[0]) < FirstIndex(names, y)
  {
    var t := d[1..];
    forall i, j | 0 <= i < j < |t|
      ensures t[i] in names && t[j] in names && FirstIndex(names, t[i]) < FirstIndex(names, t[j])
    {
      assert t[i] == d[i + 1] && t[j] == d[j + 1];
    }
    forall y | y in t
      ensures d[0] in names && y in names && FirstIndex(names, d[0]) < FirstIndex(names, y)
    {
      var j :| 0 <= j < |t| && t[j] == y;
      assert d[j + 1] == y;
    }
  }

  lemma OrderCons(x: string, d: seq<string>, names: seq<string>)
    requires InFirstOccurrenceOrder(d, names) && x in names
    requires forall y :: y in d ==> y in names && FirstIndex(names, x) < FirstIndex(names, y)
    ensures InFirstOccurrenceOrder([x] + d, names)
  {
    var r := [x] + d;
    assert forall k :: 0 < k < |r| ==> r[k] == d[k - 1] && r[k] in d;
    assert forall y :: y in r ==> y == x || y in d;
    forall i, j | 0 <= i < j < |r|
      ensures r[i] in names && r[j] in names && FirstIndex(names, r[i]) < FirstIndex(names, r[j])
    {
      if i == 0 {
        assert r[i] == x;
      } else {
        assert r[i] == d[i - 1] && r[j] == d[j - 1];
      }
    }
  }

  lemma {:induction false} RepeatedAmongKeepsOrder(keys: seq<string>, names: seq<string>)
    requires InFirstOccurrenceOrder(keys, names)
    ensures InFirstOccurrenceOrder(RepeatedAmong(keys, names), names)
    decreases |keys|
  {
    if |keys| > 0 {
      OrderTail(keys, names);
      RepeatedAmongKeepsOrder(keys[1..], names);
      RepeatedAmongMembers(keys[1..], names);
      if Count(names, keys[0]) > 1 {
        OrderCons(keys[0], RepeatedAmong(keys[1..], names), names);
      }
    }
  }

  /**
   * A name is listed as a duplicate exactly when it occurs more than once;
   * each is listed once, in order of first occurrence.
   */
  lemma DuplicatesAreRepeatedNames(names: seq<string>)
    ensures forall x :: x in Duplicates(names) <==> Count(names, x) > 1
    ensures InFirstOccurrenceOrder(Duplicates(names), names)
  {
    CounterKeysOrder(names);
    RepeatedAmongMembers(CounterKeys(names), names);
    RepeatedAmongKeepsOrder(CounterKeys(names), names);
  }

  /** Some name occurs twice exactly when the list of duplicates is not empty. */
  lemma DuplicatesNonEmptyIff(names: seq<string>)
    ensures Duplicates(names) != [] <==> exists i, j :: 0 <= i < j < |names| && names[i] == names[j]
  {
    DuplicatesAreRepeatedNames(names);
    if Duplicates(names) != [] {
      var x := Duplicates(names)[0];
      RepeatedNameHasTwoIndices(names, x);
    }
    if exists i, j :: 0 <= i < j < |names| && names[i] == names[j] {
      var i, j :| 0 <= i < j < |names| && names[i] == names[j];
      TwoIndicesRepeatName(names, i, j);
    }
  }

  lemma {:induction false} RepeatedNameHasTwoIndices(names: seq<string>, x: string)
    requires Count(names, x) > 1
    ensures exists i, j :: 0 <= i < j < |names| && names[i] == names[j]
    decreases |names|
  {
    assert names == [names[0]] + names[1..];
    var t := names[1..];
    if names[0] == x {
      assert x in multiset(t);
      var j :| 0 <= j < |t| && t[j] == x;
      assert names[0] == names[j + 1];
    } else {
      RepeatedNameHasTwoIndices(t, x);
      var i, j :| 0 <= i < j < |t| && t[i] == t[j];
      assert names[i + 1] == names[j + 1];
    }
  }

  lemma TwoIndicesRepeatName(names: seq<string>, i: nat, j: nat)
    requires i < j < |names| && names[i] == names[j]
    ensures Count(names, names[i]) > 1
  {
    assert names == names[..j] + names[j..];
    assert names[i] == names[..j][i];
    assert names[j] == names[j..][0];
  }

  lemma {:induction false} FirstIndexIsFirst(names: seq<string>, n: string)
    requires n in names
    ensures n !in names[..FirstIndex(names, n)]
  {
    if names[0] != n {
      FirstIndexIsFirst(names[1..], n);
      assert names[..FirstIndex(names, n)] == [names[0]] + names[1..][..FirstIndex(names[1..], n)];
    }
  }

  /** An error that `validate_conditions` reports. */
  datatype ConditionError =
    | EmptyConditionName            // "Condition names cannot be empty strings"
    | DuplicateConditionNames(duplicates: seq<string>)   // "Duplicate condition names found: " and the list

  /** Some condition name strips to the empty string. */
  predicate HasBlankName(conditions: seq<Condition>) {
    exists i :: 0 <= i < |conditions| && Strip(conditions[i].name) == ""
  }

  /** `validate_conditions(conditions)`. */
  function ValidateConditions(conditions: seq<Condition>): seq<ConditionError> {
    var duplicates := Duplicates(Names(conditions));
    (if HasBlankName(conditions) then [EmptyConditionName] else [])
    + (if duplicates != [] then [DuplicateConditionNames(duplicates)] else [])
  }

  /** The empty-name error is reported exactly when some name is all white space. */
  lemma ValidateConditionsEmptyNameIff(conditions: seq<Condition>)
    ensures EmptyConditionName in ValidateConditions(conditions) <==>
            exists i :: 0 <= i < |conditions| && AllPySpace(conditions[i].name)
  {
    forall i | 0 <= i < |conditions| ensures Strip(conditions[i].name) == "" <==> AllPySpace(conditions[i].name) {
      StripIsEmptyIff(conditions[i].name);
    }
  }

  /**
   * The duplicate error is reported exactly when two conditions share a name,
   * and it lists each repeated name once, in order of first occurrence.
   */
  lemma ValidateConditionsDuplicatesIff(conditions: seq<Condition>)
    ensures (exists d :: DuplicateConditionNames(d) in ValidateConditions(conditions)) <==>
            exists i, j :: 0 <= i < j < |conditions| && conditions[i].name == conditions[j].name
  {
    DuplicateErrorPresent(conditions);
    DuplicatesNonEmptyIff(Names(conditions));
    RepeatedNamesOfConditions(conditions, Names(conditions));
  }

  /** Two positions of the names hold the same name exactly when two conditions share a name. */
  lemma RepeatedNamesOfConditions(conditions: seq<Condition>, names: seq<string>)
    requires |names| == |conditions| && forall k :: 0 <= k < |conditions| ==> names[k] == conditions[k].name
    ensures (exists i, j :: 0 <= i < j < |names| && names[i] == names[j]) <==>
            exists i, j :: 0 <= i < j < |conditions| && conditions[i].name == conditions[j].name
  {
    if exists i, j :: 0 <= i < j < |names| && names[i] == names[j] {
      var i, j :| 0 <= i < j < |names| && names[i] == names[j];
      assert conditions[i].name == conditions[j].name;
    }
    if exists i, j :: 0 <= i < j < |conditions| && conditions[i].name == conditions[j].name {
      var i, j :| 0 <= i < j < |conditions| && conditions[i].name == conditions[j].name;
      assert names[i] == names[j];
    }
  }

  /** The duplicate error is there exactly when the list of duplicates is not empty. */
  lemma DuplicateErrorPresent(conditions: seq<Condition>)
    ensures (exists d :: DuplicateConditionNames(d) in ValidateConditions(conditions)) <==>
            Duplicates(Names(conditions)) != []
  {
    DuplicateErrorIn(HasBlankName(conditions), Duplicates(Names(conditions)));
  }

  lemma DuplicateErrorIn(blank: bool, duplicates: seq<string>)
    ensures var errors := (if blank then [EmptyConditionName] else [])
                          + (if duplicates != [] then [DuplicateConditionNames(duplicates)] else []);
            (exists d :: DuplicateConditionNames(d) in errors) <==> duplicates != []
  {
    var errors := (if blank then [EmptyConditionName] else [])
                  + (if duplicates != [] then [DuplicateConditionNames(duplicates)] else []);
    if exists d :: DuplicateConditionNames(d) in errors {
      var d :| DuplicateConditionNames(d) in errors;
      assert d == duplicates;
    }
    if duplicates != [] {
      assert errors[|errors| - 1] == DuplicateConditionNames(duplicates);
    }
  }

  /** The duplicate error lists each repeated name once, in order of first occurrence. */
  lemma ValidateConditionsListsDuplicates(conditions: seq<Condition>, d: seq<string>)
    requires DuplicateConditionNames(d) in ValidateConditions(conditions)
    ensures forall x :: x in d <==> Count(Names(conditions), x) > 1
    ensures InFirstOccurrenceOrder(d, Names(conditions))
  {
    DuplicateErrorCarries(HasBlankName(conditions), Duplicates(Names(conditions)), d);
    DuplicatesAreRepeatedNames(Names(conditions));
  }

  lemma DuplicateErrorCarries(blank: bool, duplicates: seq<string>, d: seq<string>)
    requires DuplicateConditionNames(d) in (if blank then [EmptyConditionName] else [])
                                           + (if duplicates != [] then [DuplicateConditionNames(duplicates)] else [])
    ensures d == duplicates
  {
  }

  /**
   * At most two errors, the empty-name error first; none at all for
   * distinct names that are not blank.
   */
  lemma ValidateConditionsShape(conditions: seq<Condition>)
    ensures var errors := ValidateConditions(conditions);
            && |errors| <= 2
            && (|errors| == 2 ==> errors[0] == EmptyConditionName && errors[1].DuplicateConditionNames?)
            && ((forall i :: 0 <= i < |conditions| ==> !AllPySpace(conditions[i].name))
                && (forall i, j :: 0 <= i < j < |conditions| ==> conditions[i].name != conditions[j].name)
                ==> errors == [])
  {
    ValidateConditionsEmptyNameIff(conditions);
    ValidateConditionsDuplicatesIff(conditions);
    var errors := ValidateConditions(conditions);
    if errors != [] {
      assert errors[0] in errors;
    }
  }

  // ---------------------------------------------------------------------------
  // update_project_conditions

  /** The set of the conditions' ids. */
  function Ids(conditions: seq<Condition>): set<Option<int>> {
    set c | c in conditions :: c.conditionId
  }

  /** `[c for c in conditions if (c.condition_id in ids) == keep]`. */
  function Select(conditions: seq<Condition>, ids: set<Option<int>>, keep: bool): seq<Condition>
    decreases |conditions|
  {
    if |conditions| == 0 then []
    else (if (conditions[0].conditionId in ids) == keep then [conditions[0]] else [])
         + Select(conditions[1..], ids, keep)
  }

  /** `a` is `b` with some elements left out, the rest in the same order. */
  predicate IsSubsequence<T(==)>(a: seq<T>, b: seq<T>)
    decreases |b|
  {
    |a| == 0
    || (|b| > 0 && ((a[0] == b[0] && IsSubsequence(a[1..], b[1..])) || IsSubsequence(a, b[1..])))
  }

  /** The three sets of work that syncing computes. */
  datatype SyncPlan = SyncPlan(toBeUpdated: seq<Condition>, toBeCreated: seq<Condition>, toBeDeleted: set<Option<int>>)

  /** The plan of `update_project_conditions`: the incoming conditions split by whether their id is stored, and the stored ids to drop. */
  function PlanSync(conditions: seq<Condition>, existing: seq<Condition>): SyncPlan {
    var existingIds := Ids(existing);
    SyncPlan(Select(conditions, existingIds, true), Select(conditions, existingIds, false),
             existingIds - Ids(conditions))
  }

  lemma {:induction false} SelectPartitions(conditions: seq<Condition>, ids: set<Option<int>>)
    ensures multiset(Select(conditions, ids, true)) + multiset(Select(conditions, ids, false)) == multiset(conditions)
    decreases |conditions|
  {
    if |conditions| > 0 {
      var c := conditions[0];
      var rest := conditions[1..];
      SelectPartitions(rest, ids);
      assert conditions == [c] + rest;
      if c.conditionId in ids {
        assert Select(conditions, ids, true) == [c] + Select(rest, ids, true);
        assert Select(conditions, ids, false) == Select(rest, ids, false);
      } else {
        assert Select(conditions, ids, true) == Select(rest, ids, true);
        assert Select(conditions, ids, false) == [c] + Select(rest, ids, false);
      }
    }
  }

  lemma {:induction false} SelectKeeps(conditions: seq<Condition>, ids: set<Option<int>>, keep: bool)
    ensures forall c :: c in Select(conditions, ids, keep) ==> c in conditions && (c.conditionId in ids) == keep
    ensures IsSubsequence(Select(conditions, ids, keep), conditions)
    decreases |conditions|
  {
    if |conditions| > 0 {
      SelectKeeps(conditions[1..], ids, keep);
      var r := Select(conditions, ids, keep);
      if (conditions[0].conditionId in ids) == keep {
        assert r == [conditions[0]] + Select(conditions[1..], ids, keep);
        assert r[0] == conditions[0] && r[1..] == Select(conditions[1..], ids, keep);
      } else {
        assert r == Select(conditions[1..], ids, keep);
      }
    }
  }

  /**
   * The conditions to update and those to create split the incoming ones,
   * each in input order: the first hold the conditions whose id is stored,
   * the second the rest.
   */
  lemma PlanSyncPartitionsIncoming(conditions: seq<Condition>, existing: seq<Condition>)
    ensures var plan := PlanSync(conditions, existing);
            && multiset(plan.toBeUpdated) + multiset(plan.toBeCreated) == multiset(conditions)
            && (forall c :: c in plan.toBeUpdated ==> c.conditionId in Ids(existing))
            && (forall c :: c in plan.toBeCreated ==> c.conditionId !in Ids(existing))
            && IsSubsequence(plan.toBeUpdated, conditions) && IsSubsequence(plan.toBeCreated, conditions)
  {
    SelectPartitions(conditions, Ids(existing));
    SelectKeeps(conditions, Ids(existing), true);
    SelectKeeps(conditions, Ids(existing), false);
  }

  /** The ids to delete are stored ids that no incoming condition carries, and all of them. */
  lemma PlanSyncDeletesUnmatched(conditions: seq<Condition>, existing: seq<Condition>)
    ensures var plan := PlanSync(conditions, existing);
            && plan.toBeDeleted <= Ids(existing)
            && plan.toBeDeleted !! Ids(conditions)
            && forall c :: c in existing && (forall d :: d in conditions ==> d.conditionId != c.conditionId)
                           ==> c.conditionId in plan.toBeDeleted
  {
  }

  /** A write that syncing issues. */
  datatype ConditionsWrite =
    | DeleteConditions(ids: set<Option<int>>)
    | CreateConditions(created: seq<Condition>)
    | UpdateConditions(updated: seq<Condition>)

  /**
   * `update_project_conditions(project_id, conditions)`, given the stored
   * conditions that `get_conditions` would read: the writes it issues, in
   * order; a write with nothing to do is skipped, and `None` issues none.
   */
  function UpdateProjectConditions(conditions: Option<seq<Condition>>, existing: seq<Condition>): seq<ConditionsWrite> {
    match conditions
    case None => []
    case Some(incoming) =>
      var plan := PlanSync(incoming, existing);
      (if plan.toBeDeleted != {} then [DeleteConditions(plan.toBeDeleted)] else [])
      + (if plan.toBeCreated != [] then [CreateConditions(plan.toBeCreated)] else [])
      + (if plan.toBeUpdated != [] then [UpdateConditions(plan.toBeUpdated)] else [])
  }

  /**
   * No conditions means no write; otherwise deletions come first, then
   * creations, then updates, each written exactly when it has work, and at
   * most one of each.
   */
  lemma UpdateProjectConditionsWrites(conditions: Option<seq<Condition>>, existing: seq<Condition>)
    ensures conditions.None? ==> UpdateProjectConditions(conditions, existing) == []
    ensures var writes := UpdateProjectConditions(conditions, existing);
            && |writes| <= 3
            && (forall w :: w in writes ==> conditions.Some? && var plan := PlanSync(conditions.value, existing);
                  match w
                  case DeleteConditions(ids) => ids == plan.toBeDeleted && ids != {}
                  case CreateConditions(cs) => cs == plan.toBeCreated && cs != []
                  case UpdateConditions(cs) => cs == plan.toBeUpdated && cs != [])
            && (forall i, j :: 0 <= i < j < |writes| ==> Rank(writes[i]) < Rank(writes[j]))
    ensures conditions.Some? ==>
              var plan := PlanSync(conditions.value, existing);
              var writes := UpdateProjectConditions(conditions, existing);
              && (plan.toBeDeleted != {} ==> DeleteConditions(plan.toBeDeleted) in writes)
              && (plan.toBeCreated != [] ==> CreateConditions(plan.toBeCreated) in writes)
              && (plan.toBeUpdated != [] ==> UpdateConditions(plan.toBeUpdated) in writes)
  {
  }

  /** The position of a write in the order the function issues them. */
  function Rank(w: ConditionsWrite): nat {
    match w
    case DeleteConditions(_) => 0
    case CreateConditions(_) => 1
    case UpdateConditions(_) => 2
  }

  /**
   * `update_project_conditions` as written: line 399 subscripts the
   * coroutine that `get_conditions(project_id)` returns before awaiting it,
   * so whenever conditions are given the call raises a `TypeError` (`None`
   * here) before any write.
   */
  function UpdateProjectConditionsAsWritten(conditions: Option<seq<Condition>>, existing: seq<Condition>): Option<seq<ConditionsWrite>> {
    if conditions.None? then Some([]) else None
  }

  /**
   * One new condition and nothing stored: the evidently intended sync
   * creates it, while the code as written raises before reaching the
   * database.
   */
  lemma ConditionsSyncRaisesAsWritten(c: Condition)
    ensures UpdateProjectConditionsAsWritten(Some([c]), []) == None
    ensures UpdateProjectConditions(Some([c]), []) == [CreateConditions([c])]
  {
    assert Ids([]) == {};
    assert Select([c], {}, true) == [];
    assert Select([c], {}, false) == [c];
  }

  // ---------------------------------------------------------------------------
  // update_capture_status and get_capture_status

  /** The `SampleRateSchema` body of a capture-status update. */
  datatype SampleRateChanges = SampleRateChanges(rate: int, captureAll: bool)

  /** The `sample_rate` that `update_capture_status` writes. */
  function CaptureSampleRate(changes: SampleRateChanges): int {
    if changes.captureAll then 100 else changes.rate
  }

  /** What `get_capture_status` reads back: `sample_rate AS rate, sample_rate=100 AS capture_all`. */
  function ReadCaptureStatus(sampleRate: int): SampleRateChanges {
    SampleRateChanges(sampleRate, sampleRate == 100)
  }

  /**
   * Capturing all sessions stores the rate 100, which reads back as capturing
   * all; otherwise the requested rate is stored and read back.
   */
  lemma CaptureStatusRoundTrip(changes: SampleRateChanges)
    ensures changes.captureAll ==> ReadCaptureStatus(CaptureSampleRate(changes)) == SampleRateChanges(100, true)
    ensures !changes.captureAll ==> ReadCaptureStatus(CaptureSampleRate(changes)).rate == changes.rate
    ensures ReadCaptureStatus(CaptureSampleRate(changes)).captureAll <==> changes.captureAll || changes.rate == 100
  {
  }

  /** Writing back the status that was read leaves the stored rate as it was. */
  lemma CaptureStatusWriteBack(sampleRate: int)
    ensures CaptureSampleRate(ReadCaptureStatus(sampleRate)) == sampleRate
  {
  }

  // ---------------------------------------------------------------------------
  // __update

  /** `helper.key_to_snake_case`, which is not part of this model. */
  type KeyCase = string -> string

  /** The assignment `__update` writes for a key of the changes. */
  function SetClause(snakeCase: KeyCase, key: string): string {
    snakeCase(key) + " = %(" + key + ")s"
  }

  /** One assignment per key, in the order of the keys. */
  function SetClauses(snakeCase: KeyCase, keys: seq<string>): (r: seq<string>)
    ensures |r| == |keys|
    ensures forall i :: 0 <= i < |keys| ==> r[i] == SetClause(snakeCase, keys[i])
  {
    if |keys| == 0 then [] else SetClauses(snakeCase, keys[..|keys| - 1]) + [SetClause(snakeCase, keys[|keys| - 1])]
  }

  /** `sep.join(parts)`. */
  function Join(parts: seq<string>, sep: string): string {
    if |parts| == 0 then ""
    else if |parts| == 1 then parts[0]
    else parts[0] + sep + Join(parts[1..], sep)
  }

  /**
   * The guard and the loop of `__update(tenant_id, project_id, changes)`,
   * given the keys of `changes` in order: no keys means no query (`None`);
   * otherwise the SET list of the UPDATE statement.
   */
  method UpdateSetList(snakeCase: KeyCase, keys: seq<string>) returns (setList: Option<string>)
    ensures setList.None? <==> |keys| == 0
    ensures setList.Some? ==> setList.value == Join(SetClauses(snakeCase, keys), " ,")
  {
    if |keys| == 0 {
      return None;
    }
    var subQuery: seq<string> := [];
    for i := 0 to |keys|
      invariant subQuery == SetClauses(snakeCase, keys[..i])
    {
      assert keys[..i + 1][..i] == keys[..i];
      subQuery := subQuery + [SetClause(snakeCase, keys[i])];
    }
    assert keys[..|keys|] == keys;
    return Some(Join(subQuery, " ,"));
  }

  /** Every key of the changes has its assignment in the SET list, in order, separated by ` ,`. */
  lemma {:induction false} JoinHoldsEveryPart(parts: seq<string>, sep: string, k: nat)
    requires k < |parts|
    ensures exists i :: StartsWithAt(Join(parts, sep), i, parts[k])
    decreases |parts|
  {
    if k == 0 {
      assert StartsWithAt(Join(parts, sep), 0, parts[0]);
    } else {
      JoinHoldsEveryPart(parts[1..], sep, k - 1);
      var i :| StartsWithAt(Join(parts[1..], sep), i, parts[1..][k - 1]);
      var pre := parts[0] + sep;
      assert Join(parts, sep) == pre + Join(parts[1..], sep);
      assert StartsWithAt(Join(parts, sep), |pre| + i, parts[k]) by {
        assert (pre + Join(parts[1..], sep))[|pre| + i..|pre| + i + |parts[k]|]
            == Join(parts[1..], sep)[i..i + |parts[k]|];
      }
    }
  }

  /** `w` occurs in `s` at index `i`. */
  predicate StartsWithAt(s: string, i: int, w: string) {
    0 <= i && i + |w| <= |s| && s[i..i + |w|] == w
  }
}
