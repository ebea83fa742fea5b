// zlog's categories and the transactional reload of their rules (category.c, category_table.c, zlog.c).
module Categories {
  import opened Levels

  datatype Rule = Rule(category: string, compare: char, level: int, level_bitmap: Bitmap)

  /** A rule as zlog_rule_new leaves it. */
  ghost predicate IsRule(r: Rule) {
    && |r.category| > 0 && IsCompare(r.compare) && -1 <= r.level <= 255
    && r.level_bitmap == RuleBitmap(r.compare, r.level)
  }

  ghost predicate AllRules(rules: seq<Rule>) {
    forall i :: 0 <= i < |rules| ==> IsRule(rules[i])
  }

  /** zlog_rule_match_category: "*" matches all, "aa_" matches "aa" and everything that starts with "aa_". */
  predicate Matches(rule: string, category: string)
    requires |rule| > 0
  {
    || rule == "*"
    || rule == category
    || (rule[|rule| - 1] == '_' && (rule <= category || rule == category + "_"))
  }

  /** A name matches itself. */
  lemma MatchesItself(name: string)
    requires |name| > 0
    ensures Matches(name, name)
  {
  }

  lemma StarMatchesAll(name: string)
    ensures Matches("*", name)
  {
  }

  /** A pattern that ends in an underscore matches the name before it, and all names that begin with the pattern. */
  lemma UnderscoreMatches(p: string, name: string)
    ensures Matches(p + "_", name) <==> name == p || (|p| + 1 <= |name| && name[..|p| + 1] == p + "_")
  {
    var rule := p + "_";
    assert rule[..|p|] == p;
    if rule == name + "_" {
      assert rule[..|name|] == name;
    }
  }

  /** Any other pattern matches nothing but itself. */
  lemma PlainMatches(rule: string, name: string)
    requires |rule| > 0 && rule != "*" && rule[|rule| - 1] != '_'
    ensures Matches(rule, name) <==> name == rule
  {
  }

  method Strcmp(a: string, b: string) returns (equal: bool)
    ensures equal <==> a == b
  {
    equal := Strncmp(a, b, if |a| < |b| then |b| else |a|);
    assert equal ==> a[..|a|] == b[..|b|];
  }

  /** strncmp: equal when the first n characters are, or both strings end before that. */
  method Strncmp(a: string, b: string, n: nat) returns (equal: bool)
    ensures equal <==> Front(a, n) == Front(b, n)
  {
    for i := 0 to n
      invariant i <= |a| && i <= |b| && a[..i] == b[..i]
    {
      if i == |a| || i == |b| {
        equal := |a| == |b|;
        FrontsDiffer(a, b, i, n);
        return;
      }
      if a[i] != b[i] {
        assert Front(a, n)[i] != Front(b, n)[i];
        return false;
      }
    }
    equal := true;
  }

  function Front(s: string, n: nat): string {
    if n <= |s| then s[..n] else s
  }

  lemma FrontsDiffer(a: string, b: string, i: nat, n: nat)
    requires i < n && i <= |a| && i <= |b| && a[..i] == b[..i] && (i == |a| || i == |b|)
    ensures Front(a, n) == Front(b, n) <==> |a| == |b|
  {
    if |a| == |b| {
      assert a == a[..i] && b == b[..i];
    }
  }

  /** zlog_rule_match_category */
  method MatchCategory(rule: string, category: string) returns (fit: bool)
    requires |rule| > 0
    ensures fit <==> Matches(rule, category)
  {
    var same := Strcmp(rule, "*");
    if same {
      return true;
    }
    same := Strcmp(rule, category);
    if same {
      return true;
    }
    var len := |rule|;
    if rule[len - 1] == '_' {
      if |category| == len - 1 {
        len := len - 1;
      }
      fit := Strncmp(rule, category, len);
      UnderscoreCompared(rule, category);
      return;
    }
    return false;
  }

  lemma UnderscoreCompared(rule: string, category: string)
    requires |rule| > 0 && rule[|rule| - 1] == '_' && rule != category
    ensures var len := if |category| == |rule| - 1 then |rule| - 1 else |rule|;
      Front(rule, len) == Front(category, len) <==> rule <= category || rule == category + "_"
  {
    var p := rule[..|rule| - 1];
    assert rule == p + "_";
    if |category| < |rule| - 1 {
      assert Front(category, |rule|) == category;
    }
  }

  predicate IsWastebin(r: Rule) {
    r.category == "!"
  }

  /** The rules that name the category, in order. */
  ghost function Matching(rules: seq<Rule>, category: string): (fit: seq<Rule>)
    requires AllRules(rules)
    ensures AllRules(fit) && |fit| <= |rules|
  {
    if rules == [] then []
    else
      Matching(rules[..|rules| - 1], category)
      + if Matches(rules[|rules| - 1].category, category) then [rules[|rules| - 1]] else []
  }

  /** Exactly the rules whose pattern names the category. */
  lemma {:induction false} MatchingMembers(rules: seq<Rule>, category: string, r: Rule)
    requires AllRules(rules) && IsRule(r)
    ensures r in Matching(rules, category) <==> r in rules && Matches(r.category, category)
  {
    hide IsRule, Matches;
    if rules != [] {
      var n := |rules| - 1;
      MatchingMembers(rules[..n], category, r);
      assert rules == rules[..n] + [rules[n]];
    }
  }

  /** The matching rules keep their order. */
  lemma {:induction false} MatchingAppend(rules: seq<Rule>, more: seq<Rule>, category: string)
    requires AllRules(rules) && AllRules(more) && AllRules(rules + more)
    ensures Matching(rules + more, category) == Matching(rules, category) + Matching(more, category)
  {
    hide IsRule, Matches;
    if more == [] {
      assert rules + more == rules;
    } else {
      var n := |more| - 1;
      assert (rules + more)[..|rules + more| - 1] == rules + more[..n];
      MatchingAppend(rules, more[..n], category);
    }
  }

  /** The last wastebin rule. */
  ghost function Wastebins(rules: seq<Rule>): (w: seq<Rule>)
    requires AllRules(rules)
    ensures AllRules(w) && |w| <= 1
  {
    if rules == [] then []
    else if IsWastebin(rules[|rules| - 1]) then [rules[|rules| - 1]]
    else Wastebins(rules[..|rules| - 1])
  }

  ghost predicate LastWastebin(rules: seq<Rule>, i: int) {
    && 0 <= i < |rules| && rules[i].category == "!"
    && forall j :: i < j < |rules| ==> rules[j].category != "!"
  }

  /** That is the rule for "!" behind which there is no other. */
  lemma {:induction false} WastebinIsLast(rules: seq<Rule>)
    requires AllRules(rules)
    ensures Wastebins(rules) == [] <==> forall i :: 0 <= i < |rules| ==> rules[i].category != "!"
    ensures forall i :: LastWastebin(rules, i) ==> Wastebins(rules) == [rules[i]]
  {
    hide IsRule;
    if rules != [] {
      var n := |rules| - 1;
      WastebinIsLast(rules[..n]);
      assert forall i :: 0 <= i < n ==> rules[..n][i] == rules[i];
      forall i | LastWastebin(rules, i)
        ensures Wastebins(rules) == [rules[i]]
      {
        if i < n {
          assert LastWastebin(rules[..n], i);
        }
      }
    }
  }

  /** The rules a category obeys: those that name it, or else the wastebin. */
  ghost function Fitting(rules: seq<Rule>, category: string): (fit: seq<Rule>)
    requires AllRules(rules)
    ensures AllRules(fit)
  {
    if Matching(rules, category) != [] then Matching(rules, category) else Wastebins(rules)
  }

  /** If any rule matches, exactly the matching ones, and only otherwise the wastebin. */
  lemma FittingMembers(rules: seq<Rule>, category: string, r: Rule)
    requires AllRules(rules) && IsRule(r)
    ensures r in Fitting(rules, category) <==>
      if exists i :: 0 <= i < |rules| && Matches(rules[i].category, category)
        then r in rules && Matches(r.category, category)
        else exists i :: LastWastebin(rules, i) && rules[i] == r
  {
    hide Matches, Matching, Wastebins, RuleBitmap;
    MatchingMembers(rules, category, r);
    if i :| 0 <= i < |rules| && Matches(rules[i].category, category) {
      assert IsRule(rules[i]);
      MatchingMembers(rules, category, rules[i]);
    } else if Matching(rules, category) != [] {
      var x := Matching(rules, category)[0];
      MatchingMembers(rules, category, x);
    } else {
      WastebinIsLast(rules);
      WastebinExists(rules);
    }
  }

  lemma {:induction false} WastebinExists(rules: seq<Rule>)
    requires AllRules(rules)
    ensures Wastebins(rules) != [] ==> exists i :: LastWastebin(rules, i)
  {
    hide IsRule;
    if rules != [] {
      var n := |rules| - 1;
      if IsWastebin(rules[n]) {
        assert LastWastebin(rules, n);
      } else {
        WastebinExists(rules[..n]);
        if Wastebins(rules) != [] {
          var i :| LastWastebin(rules[..n], i);
          assert LastWastebin(rules, i);
        }
      }
    }
  }

  ghost function Union(rules: seq<Rule>): (b: Bitmap)
    requires AllRules(rules)
    ensures |b| == BITMAP_SIZE
  {
    if rules == [] then NoLevels() else Merged(Union(rules[..|rules| - 1]), rules[|rules| - 1].level_bitmap)
  }

  /** The merged bitmap allows a level exactly when some rule would output it. */
  lemma {:induction false} UnionAllows(rules: seq<Rule>, lv: int)
    requires AllRules(rules) && IsLevel(lv)
    ensures Allows(Union(rules), lv) <==> exists i :: 0 <= i < |rules| && Outputs(rules[i].compare, rules[i].level, lv)
  {
    hide Allows, Outputs, RuleBitmap;
    if rules == [] {
      NothingAllowed(lv);
    } else {
      var n := |rules| - 1;
      UnionAllows(rules[..n], lv);
      MergedAllows(Union(rules[..n]), rules[n].level_bitmap, lv);
      assert IsRule(rules[n]);
      RuleBitmapIsExact(rules[n].compare, rules[n].level, lv);
      assert forall i :: 0 <= i < n ==> rules[..n][i] == rules[i];
    }
  }

  /** An arraylist, or the null pointer. */
  datatype RuleList = Null | List(rules: seq<Rule>)

  /** What the bitmap says of a rule list. */
  ghost predicate Agrees(list: RuleList, bitmap: Bitmap) {
    list.List? ==> AllRules(list.rules) && bitmap == Union(list.rules)
  }

  datatype State = State(fit: RuleList, backup: RuleList, bitmap: Bitmap, bitmapBackup: Bitmap)

  class Category {
    const name: string
    var level_bitmap: Bitmap
    var level_bitmap_backup: Bitmap
    var fit_rules: RuleList
    var fit_rules_backup: RuleList

    ghost function Now(): State
      reads this
    {
      State(fit_rules, fit_rules_backup, level_bitmap, level_bitmap_backup)
    }

    ghost predicate Valid()
      reads this
    {
      && |level_bitmap| == |level_bitmap_backup| == BITMAP_SIZE
      && Agrees(fit_rules, level_bitmap)
      && Agrees(fit_rules_backup, level_bitmap_backup)
    }

    /** In use, with no reload pending. */
    ghost predicate Settled()
      reads this
    {
      Valid() && fit_rules.List? && fit_rules_backup.Null? && level_bitmap_backup == NoLevels()
    }

    /** zlog_category_new; budget counts the list operations that succeed before one fails. */
    constructor (cname: string, rules: seq<Rule>, budget: nat)
      requires AllRules(rules)
      ensures name == cname && Valid() && fit_rules_backup.Null? && level_bitmap_backup == NoLevels()
      ensures fit_rules == if budget > |Fitting(rules, cname)| then List(Fitting(rules, cname)) else Null
    {
      name := cname;
      level_bitmap, level_bitmap_backup := NoLevels(), NoLevels();
      fit_rules, fit_rules_backup := Null, Null;
      new;
      var rc := ObtainRules(rules, budget);
    }

    /** zlog_cateogry_overlap_bitmap: OR the rule's bitmap in, byte by byte. */
    method OverlapBitmap(rule: Rule)
      requires |level_bitmap| == |rule.level_bitmap| == BITMAP_SIZE
      modifies this`level_bitmap
      ensures level_bitmap == Merged(old(level_bitmap), rule.level_bitmap)
    {
      ghost var before := level_bitmap;
      for i := 0 to BITMAP_SIZE
        invariant |level_bitmap| == BITMAP_SIZE
        invariant forall j :: 0 <= j < BITMAP_SIZE ==>
          level_bitmap[j] == if j < i then Or(before[j], rule.level_bitmap[j]) else before[j]
      {
        level_bitmap := level_bitmap[i := Or(level_bitmap[i], rule.level_bitmap[i])];
      }
    }

    /** zc_arraylist_add and the overlap: fails when the budget is used up. */
    method AddRule(rule: Rule, budget: nat) returns (left: nat, rc: int)
      requires fit_rules.List? && AllRules(fit_rules.rules) && IsRule(rule)
      requires level_bitmap == Union(fit_rules.rules)
      modifies this`fit_rules, this`level_bitmap
      ensures rc == if budget > 0 then 0 else -1
      ensures rc == 0 ==> left == budget - 1 && fit_rules == List(old(fit_rules).rules + [rule])
      ensures rc == 0 ==> AllRules(fit_rules.rules) && level_bitmap == Union(fit_rules.rules)
      ensures |level_bitmap| == BITMAP_SIZE
    {
      if budget == 0 {
        return 0, -1;
      }
      ghost var rules := fit_rules.rules;
      fit_rules := List(fit_rules.rules + [rule]);
      assert (rules + [rule])[..|rules|] == rules;
      OverlapBitmap(rule);
      return budget - 1, 0;
    }

    /** zlog_category_obtain_rules */
    method ObtainRules(rules: seq<Rule>, budget: nat) returns (rc: int)
      requires AllRules(rules)
      modifies this`fit_rules, this`level_bitmap
      ensures |level_bitmap| == BITMAP_SIZE
      ensures rc == if budget > |Fitting(rules, name)| then 0 else -1
      ensures rc == 0 ==> fit_rules == List(Fitting(rules, name)) && level_bitmap == Union(Fitting(rules, name))
      ensures rc != 0 ==> fit_rules == Null
    {
      hide IsRule, Union, Matches, IsWastebin, Matching, Wastebins;
      level_bitmap := NoLevels();
      NoneMatching(rules, name);
      if budget == 0 {
        fit_rules := Null;
        return -1;
      }
      fit_rules := List([]);
      UnionOfNone();
      var left: nat, count: nat := budget - 1, 0;
      var wastebin: RuleList := List([]);
      for i := 0 to |rules|
        invariant |level_bitmap| == BITMAP_SIZE && AllRules(rules[..i])
        invariant fit_rules == List(Matching(rules[..i], name)) && level_bitmap == Union(Matching(rules[..i], name))
        invariant count == |Matching(rules[..i], name)| && left == budget - 1 - count
        invariant wastebin == List(Wastebins(rules[..i]))
      {
        NextMatching(rules, i, name);
        MatchingGrows(rules, i + 1, name);
        var fit := MatchCategory(rules[i].category, name);
        if fit {
          var more, r := AddRule(rules[i], left);
          if r != 0 {
            fit_rules := Null;
            return -1;
          }
          left := more;
          count := count + 1;
        }
        if IsWastebin(rules[i]) {
          wastebin := List([rules[i]]);
        }
      }
      assert rules[..|rules|] == rules;
      if count == 0 && wastebin.rules != [] {
        var more, r := AddRule(wastebin.rules[0], left);
        if r != 0 {
          fit_rules := Null;
          return -1;
        }
      }
      return 0;
    }

    /** zlog_category_update_rules: the rules in use, if any, replace whatever was kept aside. */
    method UpdateRules(new_rules: seq<Rule>, budget: nat) returns (rc: int)
      requires Valid() && AllRules(new_rules)
      modifies this
      ensures Valid() && rc == if budget > |Fitting(new_rules, name)| then 0 else -1
      ensures fit_rules_backup == old(fit_rules) && level_bitmap_backup == old(level_bitmap)
      ensures fit_rules == if rc == 0 then List(Fitting(new_rules, name)) else Null
    {
      hide Union, Fitting, AllRules;
      fit_rules_backup := fit_rules;
      fit_rules := Null;
      level_bitmap_backup := level_bitmap;
      rc := ObtainRules(new_rules, budget);
      if rc != 0 {
        fit_rules := Null;
        return -1;
      }
      return 0;
    }

    /** zlog_category_commit_rules */
    method CommitRules()
      requires Valid()
      modifies this
      ensures Valid() && fit_rules_backup.Null?
      ensures fit_rules == old(fit_rules) && level_bitmap == old(level_bitmap)
      ensures level_bitmap_backup == if old(fit_rules_backup).Null? then old(level_bitmap_backup) else NoLevels()
    {
      hide Union;
      if fit_rules_backup.Null? {
        return;
      }
      fit_rules_backup := Null;
      level_bitmap_backup := NoLevels();
    }

    /** zlog_category_rollback_rules */
    method RollbackRules()
      requires Valid()
      modifies this
      ensures Valid() && fit_rules_backup.Null?
      ensures level_bitmap_backup == if old(fit_rules_backup).Null? then old(level_bitmap_backup) else NoLevels()
      ensures fit_rules == if old(fit_rules_backup).Null? then old(fit_rules) else old(fit_rules_backup)
      ensures level_bitmap == if old(fit_rules_backup).Null? then old(level_bitmap) else old(level_bitmap_backup)
    {
      hide Union;
      if fit_rules_backup.Null? {
        return;
      }
      fit_rules := fit_rules_backup;
      fit_rules_backup := Null;
      level_bitmap := level_bitmap_backup;
      level_bitmap_backup := NoLevels();
    }

    /** zlog_category_needless_level */
    predicate NeedlessLevel(lv: int)
      requires |level_bitmap| == BITMAP_SIZE && IsLevel(lv)
      reads this
    {
      !Allows(level_bitmap, lv)
    }

    /** Skipping a needless level loses nothing: none of the rules would have output it, and only then. */
    lemma NeedlessIsExact(lv: int)
      requires Valid() && fit_rules.List? && IsLevel(lv)
      ensures NeedlessLevel(lv) <==>
        forall i :: 0 <= i < |fit_rules.rules| ==> !Outputs(fit_rules.rules[i].compare, fit_rules.rules[i].level, lv)
    {
      hide Allows, Outputs;
      UnionAllows(fit_rules.rules, lv);
    }
  }

  lemma NextMatching(rules: seq<Rule>, i: nat, category: string)
    requires i < |rules| && AllRules(rules)
    ensures IsRule(rules[i]) && |rules[i].category| > 0
    ensures Matching(rules[..i + 1], category)
      == Matching(rules[..i], category) + if Matches(rules[i].category, category) then [rules[i]] else []
    ensures Wastebins(rules[..i + 1]) == if IsWastebin(rules[i]) then [rules[i]] else Wastebins(rules[..i])
  {
    hide Matches, IsWastebin;
    assert rules[..i + 1][..i] == rules[..i];
  }

  lemma NoneMatching(rules: seq<Rule>, category: string)
    ensures rules[..0] == [] && Matching(rules[..0], category) == [] && Wastebins(rules[..0]) == []
  {
  }

  lemma UnionOfNone()
    ensures Union([]) == NoLevels()
  {
  }

  lemma {:induction false} MatchingGrows(rules: seq<Rule>, i: nat, category: string)
    requires i <= |rules| && AllRules(rules)
    ensures |Matching(rules[..i], category)| <= |Matching(rules, category)|
    ensures Matching(rules[..i], category) != [] ==> |Matching(rules, category)| == |Fitting(rules, category)|
    decreases |rules|
  {
    hide IsRule, Matches;
    if i < |rules| {
      var n := |rules| - 1;
      MatchingGrows(rules[..n], i, category);
      assert rules[..n][..i] == rules[..i];
    } else {
      assert rules[..i] == rules;
    }
  }
}
