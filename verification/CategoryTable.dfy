// Reloading the rules of all categories at once: category_table.c, and zlog_reload's use of it.
module CategoryTable {
  import opened Levels
  import opened Categories

  ghost predicate Different(cats: seq<Category>) {
    forall i, j :: 0 <= i < j < |cats| ==> cats[i] != cats[j]
  }

  ghost predicate AllSettled(cats: seq<Category>)
    reads cats
  {
    forall i :: 0 <= i < |cats| ==> cats[i].Settled()
  }

  ghost predicate AllValid(cats: seq<Category>)
    reads cats
  {
    forall i :: 0 <= i < |cats| ==> cats[i].Valid()
  }

  ghost function States(cats: seq<Category>): (s: seq<State>)
    reads cats
    ensures |s| == |cats| && forall i :: 0 <= i < |cats| ==> s[i] == cats[i].Now()
  {
    if cats == [] then [] else States(cats[..|cats| - 1]) + [cats[|cats| - 1].Now()]
  }

  /** The list operations of the category suffice for its new rules. */
  ghost predicate Enough(c: Category, rules: seq<Rule>, budget: nat)
    requires AllRules(rules)
  {
    budget > |Fitting(rules, c.name)|
  }

  /** k is the first category whose list operations do not suffice, or the number of categories. */
  ghost predicate FirstFailure(cats: seq<Category>, rules: seq<Rule>, budgets: seq<nat>, k: nat)
    requires AllRules(rules) && |budgets| == |cats|
  {
    && k <= |cats| && (forall i :: 0 <= i < k ==> Enough(cats[i], rules, budgets[i]))
    && (k < |cats| ==> !Enough(cats[k], rules, budgets[k]))
  }

  /** The rules in use, if any, are kept aside, in place of anything kept aside before. */
  ghost predicate KeptAside(was: State, now: State) {
    now.backup == was.fit && now.bitmapBackup == was.bitmap
  }

  /** After an update that got through. */
  ghost predicate Updated(c: Category, rules: seq<Rule>, was: State, now: State)
    requires AllRules(rules)
  {
    KeptAside(was, now) && now.fit == List(Fitting(rules, c.name))
  }

  /** After an update that failed: no rules in use. */
  ghost predicate Stranded(was: State, now: State) {
    KeptAside(was, now) && now.fit == Null
  }

  /** Categories before k are updated, category k is stranded, the others are as they were. */
  ghost predicate Midway(cats: seq<Category>, rules: seq<Rule>, was: seq<State>, now: seq<State>, k: nat)
    requires AllRules(rules) && |was| == |now| == |cats|
  {
    && (forall i :: 0 <= i < |cats| && i < k ==> Updated(cats[i], rules, was[i], now[i]))
    && (forall i :: 0 <= i < |cats| && i == k ==> Stranded(was[i], now[i]))
    && (forall i :: 0 <= i < |cats| && i > k ==> now[i] == was[i])
  }

  /** The call for category i changes that category only. */
  method UpdateOne(cats: seq<Category>, i: nat, rules: seq<Rule>, budget: nat) returns (rc: int)
    requires Different(cats) && AllValid(cats) && AllRules(rules) && i < |cats|
    modifies cats
    ensures AllValid(cats) && States(cats) == old(States(cats))[i := cats[i].Now()]
    ensures rc == 0 <==> Enough(cats[i], rules, budget)
    ensures rc == 0 ==> Updated(cats[i], rules, old(States(cats))[i], cats[i].Now())
    ensures rc != 0 ==> Stranded(old(States(cats))[i], cats[i].Now())
  {
    hide Fitting, AllRules, Category.Valid;
    ghost var was := States(cats);
    ghost var c := cats[i];
    assert forall j :: 0 <= j < |cats| && j != i ==> cats[j] != c;
    rc := cats[i].UpdateRules(rules, budget);
    assert forall j :: 0 <= j < |cats| && j != i ==> cats[j].Now() == was[j];
  }

  /** Categories before i are updated, the others are as they were. */
  ghost predicate UpTo(cats: seq<Category>, rules: seq<Rule>, was: seq<State>, now: seq<State>, i: nat)
    requires AllRules(rules) && |was| == |now| == |cats|
  {
    && i <= |cats| && (forall j :: 0 <= j < i ==> Updated(cats[j], rules, was[j], now[j]))
    && forall j :: i <= j < |cats| ==> now[j] == was[j]
  }

  lemma UpToNext(cats: seq<Category>, rules: seq<Rule>, was: seq<State>, now: seq<State>, i: nat, s: State)
    requires AllRules(rules) && |was| == |now| == |cats| && i < |cats| && UpTo(cats, rules, was, now, i)
    ensures now[i] == was[i]
    ensures Updated(cats[i], rules, was[i], s) ==> UpTo(cats, rules, was, now[i := s], i + 1)
    ensures Stranded(was[i], s) ==> Midway(cats, rules, was, now[i := s], i)
  {
    hide Fitting, Updated, Stranded;
  }

  /** zlog_category_table_update_rules: stops at the first category that fails, number k. */
  method UpdateRules(cats: seq<Category>, rules: seq<Rule>, budgets: seq<nat>) returns (rc: int, ghost k: nat)
    requires Different(cats) && AllValid(cats) && AllRules(rules) && |budgets| == |cats|
    modifies cats
    ensures AllValid(cats) && FirstFailure(cats, rules, budgets, k)
    ensures Midway(cats, rules, old(States(cats)), States(cats), k)
    ensures rc == if k == |cats| then 0 else -1
  {
    hide Fitting, AllRules, AllValid, States, Updated, Stranded, Enough;
    ghost var was := States(cats);
    for i := 0 to |cats|
      invariant AllValid(cats) && UpTo(cats, rules, was, States(cats), i)
      invariant forall j :: 0 <= j < i ==> Enough(cats[j], rules, budgets[j])
    {
      ghost var now := States(cats);
      var r := UpdateOne(cats, i, rules, budgets[i]);
      UpToNext(cats, rules, was, now, i, cats[i].Now());
      if r != 0 {
        return -1, i;
      }
    }
    return 0, |cats|;
  }

  /** What commit makes of one category. */
  ghost predicate Committed(was: State, now: State) {
    && now.fit == was.fit && now.bitmap == was.bitmap && now.backup == Null
    && now.bitmapBackup == if was.backup.Null? then was.bitmapBackup else NoLevels()
  }

  /** zlog_category_table_commit_rules */
  method CommitRules(cats: seq<Category>)
    requires Different(cats) && AllValid(cats)
    modifies cats
    ensures AllValid(cats)
    ensures forall i :: 0 <= i < |cats| ==> Committed(old(States(cats))[i], cats[i].Now())
  {
    hide Category.Valid;
    ghost var was := States(cats);
    for i := 0 to |cats|
      invariant forall j :: 0 <= j < |cats| ==> cats[j].Valid()
      invariant forall j :: 0 <= j < i ==> Committed(was[j], cats[j].Now())
      invariant forall j :: i <= j < |cats| ==> cats[j].Now() == was[j]
    {
      assert forall j :: 0 <= j < |cats| && j != i ==> cats[j] != cats[i];
      cats[i].CommitRules();
    }
  }

  /** What rollback makes of one category. */
  ghost predicate RolledBack(was: State, now: State) {
    && now.backup == Null
    && now.bitmapBackup == (if was.backup.Null? then was.bitmapBackup else NoLevels())
    && now.fit == (if was.backup.Null? then was.fit else was.backup)
    && now.bitmap == (if was.backup.Null? then was.bitmap else was.bitmapBackup)
  }

  /** zlog_category_table_rollback_rules */
  method RollbackRules(cats: seq<Category>)
    requires Different(cats) && AllValid(cats)
    modifies cats
    ensures AllValid(cats)
    ensures forall i :: 0 <= i < |cats| ==> RolledBack(old(States(cats))[i], cats[i].Now())
  {
    hide Category.Valid;
    ghost var was := States(cats);
    for i := 0 to |cats|
      invariant forall j :: 0 <= j < |cats| ==> cats[j].Valid()
      invariant forall j :: 0 <= j < i ==> RolledBack(was[j], cats[j].Now())
      invariant forall j :: i <= j < |cats| ==> cats[j].Now() == was[j]
    {
      assert forall j :: 0 <= j < |cats| && j != i ==> cats[j] != cats[i];
      cats[i].RollbackRules();
    }
  }

  ghost predicate SettledState(s: State) {
    s.fit.List? && s.backup.Null? && s.bitmapBackup == NoLevels()
  }

  ghost predicate AllSettledStates(s: seq<State>) {
    forall i :: 0 <= i < |s| ==> SettledState(s[i])
  }

  lemma SettledStates(cats: seq<Category>)
    requires AllValid(cats)
    ensures AllSettled(cats) <==> AllSettledStates(States(cats))
  {
    hide Agrees, States;
    if AllSettledStates(States(cats)) {
      forall i | 0 <= i < |cats|
        ensures cats[i].Settled()
      {
        assert SettledState(States(cats)[i]);
      }
    }
  }

  /** A settled category that was updated, stranded or untouched is back after its rollback. */
  lemma RollbackUndoes(before: State, midway: State, after: State)
    requires SettledState(before) && (midway == before || KeptAside(before, midway)) && RolledBack(midway, after)
    ensures after == before
  {
  }

  lemma RollbackUndoesAll(cats: seq<Category>, rules: seq<Rule>, was: seq<State>, midway: seq<State>, k: nat,
                          now: seq<State>)
    requires AllRules(rules) && |was| == |midway| == |now| == |cats|
    requires AllSettledStates(was) && Midway(cats, rules, was, midway, k)
    requires forall i :: 0 <= i < |cats| ==> RolledBack(midway[i], now[i])
    ensures now == was
  {
    hide Fitting;
    forall i | 0 <= i < |cats|
      ensures now[i] == was[i]
    {
      assert SettledState(was[i]);
      RollbackUndoes(was[i], midway[i], now[i]);
    }
  }

  lemma CommitSettles(cats: seq<Category>, rules: seq<Rule>, was: seq<State>, midway: seq<State>, now: seq<State>)
    requires AllRules(rules) && |was| == |midway| == |now| == |cats|
    requires Midway(cats, rules, was, midway, |cats|)
    requires forall i :: 0 <= i < |cats| ==> Committed(midway[i], now[i])
    ensures forall i :: 0 <= i < |cats| ==> now[i].fit == List(Fitting(rules, cats[i].name)) && now[i].backup == Null
    ensures AllSettledStates(was) ==> AllSettledStates(now)
  {
    hide Fitting;
    forall i | 0 <= i < |cats|
      ensures now[i].fit == List(Fitting(rules, cats[i].name)) && now[i].backup == Null
      ensures AllSettledStates(was) ==> SettledState(now[i])
    {
      assert AllSettledStates(was) ==> SettledState(was[i]);
    }
  }

  /**
   * The transaction the two calls are made for: update, then commit on success and roll back on failure. Either
   * every category has the new rules, or every category is exactly as it was; no backup remains.
   */
  method UpdateOrRollback(cats: seq<Category>, rules: seq<Rule>, budgets: seq<nat>) returns (rc: int)
    requires Different(cats) && AllSettled(cats) && AllRules(rules) && |budgets| == |cats|
    modifies cats
    ensures AllSettled(cats)
    ensures rc == 0 <==> forall i :: 0 <= i < |cats| ==> Enough(cats[i], rules, budgets[i])
    ensures rc == 0 ==> forall i :: 0 <= i < |cats| ==> cats[i].fit_rules == List(Fitting(rules, cats[i].name))
    ensures rc != 0 ==> rc == -1 && States(cats) == old(States(cats))
  {
    hide Fitting, AllRules, Enough, States, Midway, AllSettled, AllSettledStates, Category.Valid;
    SettledAreValid(cats);
    SettledStates(cats);
    ghost var was, k := States(cats), 0;
    rc, k := UpdateRules(cats, rules, budgets);
    ghost var midway := States(cats);
    if rc == 0 {
      CommitRules(cats);
      CommitSettles(cats, rules, was, midway, States(cats));
    } else {
      RollbackRules(cats);
      RollbackUndoesAll(cats, rules, was, midway, k, States(cats));
    }
    SettledStates(cats);
  }

  lemma SettledAreValid(cats: seq<Category>)
    requires AllSettled(cats)
    ensures AllValid(cats)
  {
    hide Agrees;
  }

  /** The error exit of zlog_reload. */
  method ErrorExit(cats: seq<Category>, c_up: bool)
    requires Different(cats) && AllValid(cats)
    modifies cats
    ensures AllValid(cats)
    ensures if c_up then forall i :: 0 <= i < |cats| ==> RolledBack(old(States(cats))[i], cats[i].Now())
      else States(cats) == old(States(cats))
  {
    if c_up {
      RollbackRules(cats);
    }
  }

  datatype Conf = NoConf | Conf(rules: seq<Rule>)

  /** A stranded category is not what it was if it had rules. */
  lemma StrandedDiffers(cats: seq<Category>, rules: seq<Rule>, was: seq<State>, now: seq<State>, k: nat)
    requires AllRules(rules) && |was| == |now| == |cats| && k < |cats|
    requires Midway(cats, rules, was, now, k) && AllSettledStates(was)
    ensures now != was
  {
    hide Fitting;
    assert SettledState(was[k]) && now[k].fit == Null;
  }

  /**
   * zlog_reload as written, for categories in whatever state: a failed update clears c_up, and the error exit rolls
   * back only if c_up is set. So when the new configuration is read but the update fails at category k, nothing is
   * rolled back: the categories before k keep the new rules and category k has none.
   */
  method ZlogReload(cats: seq<Category>, newConf: Conf, budgets: seq<nat>) returns (rc: int, ghost k: nat)
    requires Different(cats) && AllValid(cats) && |budgets| == |cats|
    requires newConf.Conf? ==> AllRules(newConf.rules)
    modifies cats
    ensures AllValid(cats) && (rc == 0 || rc == -1)
    ensures newConf.NoConf? ==> rc != 0 && States(cats) == old(States(cats))
    ensures newConf.Conf? ==> FirstFailure(cats, newConf.rules, budgets, k) && (rc == 0 <==> k == |cats|)
    ensures newConf.Conf? && rc != 0 ==> Midway(cats, newConf.rules, old(States(cats)), States(cats), k)
    ensures rc == 0 ==> forall i :: 0 <= i < |cats| ==>
      cats[i].fit_rules == List(Fitting(newConf.rules, cats[i].name)) && cats[i].fit_rules_backup == Null
    ensures old(AllSettled(cats)) ==> (AllSettled(cats) <==> rc == 0 || newConf.NoConf?)
    ensures rc != 0 && old(AllSettled(cats)) ==> (States(cats) == old(States(cats)) <==> newConf.NoConf?)
  {
    hide Fitting, AllRules, Enough, States, Midway, AllSettled, AllSettledStates, Category.Valid;
    var c_up := false;
    ghost var was := States(cats);
    SettledStates(cats);
    if newConf.NoConf? {
      ErrorExit(cats, c_up);
      SettledStates(cats);
      return -1, 0;
    }
    rc, k := UpdateRules(cats, newConf.rules, budgets);
    ghost var midway := States(cats);
    if rc != 0 {
      c_up := false;
    } else {
      c_up := true;
    }
    if rc != 0 {
      ErrorExit(cats, c_up);
      SettledStates(cats);
      if AllSettledStates(was) {
        StrandedDiffers(cats, newConf.rules, was, midway, k);
        StrandedUnsettled(cats, newConf.rules, was, midway, k);
      }
      return -1, k;
    }
    if c_up {
      CommitRules(cats);
    }
    CommitSettles(cats, newConf.rules, was, midway, States(cats));
    SettledStates(cats);
    return 0, k;
  }

  lemma StrandedUnsettled(cats: seq<Category>, rules: seq<Rule>, was: seq<State>, now: seq<State>, k: nat)
    requires AllRules(rules) && |was| == |now| == |cats| && k < |cats|
    requires Midway(cats, rules, was, now, k)
    ensures !AllSettledStates(now)
  {
    hide Fitting;
    assert now[k].fit == Null;
    assert !SettledState(now[k]);
  }

  lemma MidwayStranded(cats: seq<Category>, rules: seq<Rule>, was: seq<State>, now: seq<State>, k: nat)
    requires AllRules(rules) && |was| == |now| == |cats| && k < |cats|
    requires Midway(cats, rules, was, now, k) && AllSettledStates(was)
    ensures SettledState(was[k]) && Stranded(was[k], now[k])
  {
    hide Fitting;
  }

  lemma Restored(was: State, now: State)
    requires RolledBack(was, now)
    ensures now.fit == if was.backup.Null? then was.fit else was.backup
  {
  }

  /** What a second reload makes of a stranded category, before its rollback. */
  lemma SecondReload(cats: seq<Category>, rules: seq<Rule>, first: State, was: seq<State>, now: seq<State>, k: nat,
                     m: nat)
    requires AllRules(rules) && |was| == |now| == |cats| && k < |cats| && m <= |cats|
    requires SettledState(first) && Stranded(first, was[k])
    requires if m < |cats| then Midway(cats, rules, was, now, m)
      else now[k].fit == List(Fitting(rules, cats[k].name)) && now[k].backup == Null
    ensures m < k ==> now[k].backup == first.fit
    ensures m >= k ==> now[k].backup == Null
    ensures m == k ==> now[k].fit == Null
    ensures m > k ==> now[k].fit == List(Fitting(rules, cats[k].name))
  {
    hide Fitting;
  }

  /**
   * After a failed reload a second one, then a rollback. The rules of the category that the first one stranded come
   * back exactly if the second one does not get as far as that category: otherwise its null list overwrites the only
   * copy, and it ends up with the rules of the second configuration or with none.
   */
  method ReloadTwice(cats: seq<Category>, rules1: seq<Rule>, budgets1: seq<nat>, rules2: seq<Rule>, budgets2: seq<nat>)
    returns (ghost k: nat, ghost m: nat)
    requires Different(cats) && AllSettled(cats) && AllRules(rules1) && AllRules(rules2)
    requires |budgets1| == |budgets2| == |cats|
    requires exists i :: 0 <= i < |cats| && !Enough(cats[i], rules1, budgets1[i])
    modifies cats
    ensures k < |cats| && FirstFailure(cats, rules1, budgets1, k) && FirstFailure(cats, rules2, budgets2, m)
    ensures m < k ==> cats[k].fit_rules == old(cats[k].fit_rules)
    ensures m == k ==> cats[k].fit_rules == Null
    ensures m > k ==> cats[k].fit_rules == List(Fitting(rules2, cats[k].name))
  {
    hide Fitting, AllRules, Enough, States, AllSettled, AllValid, Midway, Stranded, RolledBack;
    SettledAreValid(cats);
    SettledStates(cats);
    var rc;
    ghost var was := States(cats);
    rc, k := ZlogReload(cats, Conf(rules1), budgets1);
    ghost var once := States(cats);
    assert k < |cats| && FirstFailure(cats, rules1, budgets1, k);
    MidwayStranded(cats, rules1, was, once, k);
    rc, m := ZlogReload(cats, Conf(rules2), budgets2);
    ghost var twice := States(cats);
    SecondReload(cats, rules2, was[k], once, twice, k, m);
    RollbackRules(cats);
    Restored(twice[k], cats[k].Now());
  }

  /** A rule for every category and level. */
  const CATCH_ALL := Rule("*", '*', 0, RuleBitmap('*', 0))

  lemma CatchAllFits(name: string)
    ensures AllRules([CATCH_ALL]) && Fitting([CATCH_ALL], name) == [CATCH_ALL]
  {
    hide RuleBitmap;
    assert [CATCH_ALL][..0] == [];
  }

  /**
   * The smallest case: a category with one rule whose first list allocation fails at a reload of the same rule is left
   * without rules.
   */
  method OneStranded(name: string) returns (c: Category)
    ensures fresh(c) && c.fit_rules == Null && c.fit_rules_backup == List([CATCH_ALL])
  {
    hide Fitting, AllRules;
    var rules := [CATCH_ALL];
    CatchAllFits(name);
    c := new Category(name, rules, 2);
    var cats := [c];
    var budgets := [0];
    assert !Enough(cats[0], rules, budgets[0]);
    var _, _ := ZlogReload(cats, Conf(rules), budgets);
    assert States(cats)[0].fit == Null;
  }
}
