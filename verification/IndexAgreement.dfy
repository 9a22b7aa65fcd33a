/** What Match returns against a scan of all indexed rules, over whole runs of the index. */
module IndexAgreement {
  import opened Conditions
  import opened RuleIndex

  // ----- Matching against a full scan -----

  /** The index leads from the point to the rule. */
  predicate HitBy(rule: Rule, p: Point) {
    || InSlot(rule, "device_id", p.device) || InSlot(rule, "device_id", "*")
    || InSlot(rule, "key", p.key) || InSlot(rule, "key", "*")
    || InSlot(rule, "type", p.dataType) || InSlot(rule, "type", "*")
  }

  lemma HitsAre(s: IndexState, p: Point, x: Rule)
    requires Consistent(s)
    ensures x in Hits(s, p) <==> x in s.all && HitBy(x, p)
  {
    hide Get, Filed, InSlot, DistinctIds;
    FiledMember(s.all, "device_id", p.device, x);
    FiledMember(s.all, "device_id", "*", x);
    FiledMember(s.all, "key", p.key, x);
    FiledMember(s.all, "key", "*", x);
    FiledMember(s.all, "type", p.dataType, x);
    FiledMember(s.all, "type", "*", x);
  }

  /** An indexed rule is returned for a point exactly when a slot leads to it, or no slot leads anywhere. */
  lemma ReturnedIff(s: IndexState, p: Point, r: seq<Rule>, x: Rule)
    requires Inv(s) && MatchResult(s, p, r) && x in s.all
    ensures x in r <==> Hits(s, p) == [] || HitBy(x, p)
  {
    hide Hits, HitBy;
    HitsAre(s, p, x);
    if Hits(s, p) == [] {
      assert x in multiset(s.all);
      assert x in multiset(s.byPriority);
    } else if x in Hits(s, p) {
      assert HasId(r, x.id);
      var i :| 0 <= i < |r| && r[i].id == x.id;
      assert r[i] in r && LastOf(Hits(s, p), r[i]);
      HitsAre(s, p, r[i]);
      SameIdSameRule(s.all, x, r[i]);
    }
  }

  /** When a slot leads somewhere nothing but indexed rules is returned. */
  lemma OnlyIndexed(s: IndexState, p: Point, r: seq<Rule>, x: Rule)
    requires Inv(s) && MatchResult(s, p, r) && Hits(s, p) != [] && x in r
    ensures x in s.all
  {
    hide Hits, HitBy;
    HitsAre(s, p, x);
  }

  /** The rules firing among those returned are the rules firing in a scan of all indexed rules. */
  ghost predicate AgreesWithScan(env: Env, s: IndexState, p: Point, r: seq<Rule>) {
    forall x: Rule :: x in r && Fires(env, x.conditions, p) <==> x in s.all && Fires(env, x.conditions, p)
  }

  /** A slot leads from the point to some indexed rule. */
  ghost predicate LeadsSomewhere(indexed: map<string, Rule>, p: Point) {
    exists x :: x in indexed.Values && HitBy(x, p)
  }

  lemma ReplayMember(s: IndexState, indexed: map<string, Rule>, disabled: set<Rule>, x: Rule)
    requires ListsReplay(s, indexed, disabled)
    ensures x in s.all <==> x in indexed.Values
    ensures x in s.byPriority <==> x in indexed.Values || x in disabled
    ensures x in disabled ==> x !in indexed.Values
  {
    hide ByPriority, DistinctIds;
    assert x in s.byPriority <==> x in multiset(s.byPriority);
    assert x in s.all <==> x in multiset(s.all);
    if x in indexed.Values {
      var id :| id in indexed && indexed[id] == x;
    }
  }

  lemma HitsEmptyIff(s: IndexState, indexed: map<string, Rule>, disabled: set<Rule>, p: Point)
    requires Inv(s) && ListsReplay(s, indexed, disabled)
    ensures Hits(s, p) == [] <==> !LeadsSomewhere(indexed, p)
  {
    hide Hits, HitBy, ListsReplay;
    if Hits(s, p) != [] {
      var x := Hits(s, p)[0];
      HitsAre(s, p, x);
      ReplayMember(s, indexed, disabled, x);
    } else if x :| x in indexed.Values && HitBy(x, p) {
      ReplayMember(s, indexed, disabled, x);
      HitsAre(s, p, x);
    }
  }

  /** Which rules Match returns, in terms of the replayed operations. */
  lemma ReturnedByReplay(s: IndexState, indexed: map<string, Rule>, disabled: set<Rule>, p: Point, r: seq<Rule>,
                         x: Rule)
    requires Inv(s) && ListsReplay(s, indexed, disabled) && MatchResult(s, p, r)
    ensures x in r <==>
      if LeadsSomewhere(indexed, p) then x in indexed.Values && HitBy(x, p) else x in indexed.Values || x in disabled
  {
    hide HitBy, Hits, LeadsSomewhere, ListsReplay, Consistent;
    HitsEmptyIff(s, indexed, disabled, p);
    ReplayMember(s, indexed, disabled, x);
    if x in s.all {
      ReturnedIff(s, p, r, x);
    } else if x in r && LeadsSomewhere(indexed, p) {
      OnlyIndexed(s, p, r, x);
    }
  }

  /** A state the index can be in after the operations, none of which since the last Clear removed or replaced
      a rule that pins a value twice. */
  ghost predicate After(ops: seq<Op>, s: IndexState) {
    !StaleSince(ops) && exists states :: IsRun(states, ops) && states[|ops|] == s
  }

  lemma AfterHolds(ops: seq<Op>, s: IndexState)
    requires After(ops, s)
    ensures Inv(s) && ListsReplay(s, Indexed(ops), Disabled(ops))
  {
    hide Inv, ListsReplay, Indexed, Disabled, StaleSince;
    var states :| IsRun(states, ops) && states[|ops|] == s;
    assert ops[..|ops|] == ops;
    RunInv(states, ops, |ops|);
    assert Inv(states[|ops|]);
    PriorityCurrentIff(states, ops, |ops|);
  }

  /** What Match returns after any run: the rules its slots lead to; or, if they lead to none, the indexed
      rules together with those disabled since the priority list was last rebuilt. */
  lemma MatchAfterRun(ops: seq<Op>, s: IndexState, p: Point, r: seq<Rule>, x: Rule)
    requires After(ops, s) && MatchResult(s, p, r)
    ensures x in s.all <==> x in Indexed(ops).Values
    ensures x in r <==>
      if LeadsSomewhere(Indexed(ops), p) then x in Indexed(ops).Values && HitBy(x, p)
      else x in Indexed(ops).Values || x in Disabled(ops)
    ensures x in Disabled(ops) ==> x !in Indexed(ops).Values
  {
    hide After, Inv, ListsReplay, MatchResult, LeadsSomewhere, HitBy, Indexed, Disabled;
    AfterHolds(ops, s);
    ReplayMember(s, Indexed(ops), Disabled(ops), x);
    ReturnedByReplay(s, Indexed(ops), Disabled(ops), p, r, x);
  }

  /** After every run, for all rules: matching agrees with a scan exactly when every firing rule is led to
      by a slot or, if no slot leads anywhere, no rule disabled since the last rebuild fires. */
  lemma AgreesIff(env: Env, ops: seq<Op>, s: IndexState, p: Point, r: seq<Rule>)
    requires After(ops, s) && MatchResult(s, p, r)
    ensures AgreesWithScan(env, s, p, r) <==>
      if LeadsSomewhere(Indexed(ops), p)
      then forall x | x in Indexed(ops).Values && Fires(env, x.conditions, p) :: HitBy(x, p)
      else forall x | x in Disabled(ops) :: !Fires(env, x.conditions, p)
  {
    hide After, MatchResult, LeadsSomewhere, HitBy, Indexed, Disabled, Fires;
    forall x: Rule
      ensures x in s.all <==> x in Indexed(ops).Values
      ensures x in r <==>
        if LeadsSomewhere(Indexed(ops), p) then x in Indexed(ops).Values && HitBy(x, p)
        else x in Indexed(ops).Values || x in Disabled(ops)
      ensures x in Disabled(ops) ==> x !in Indexed(ops).Values
    {
      MatchAfterRun(ops, s, p, r, x);
    }
  }

  /** A rule that the index can rely on: it leaves a field unpinned, or it is conjunctive and pins some
      field to a value that is neither a wildcard, nor empty, nor a numeral. */
  ghost predicate Anchored(env: Env, rule: Rule) {
    || ItemPins(rule.conditions, "device_id") == []
    || ItemPins(rule.conditions, "key") == []
    || ItemPins(rule.conditions, "type") == []
    || (rule.conditions.Sub? && Conjunctive(rule.conditions.cond)
        && exists f, v :: IndexedField(f) && v in ItemPins(rule.conditions, f) && !Wild(v) && env.parseFloat(v).None?)
  }

  /** An anchored rule is led to on every point it fires on. */
  lemma AnchoredHit(env: Env, rule: Rule, p: Point)
    requires Anchored(env, rule) && Fires(env, rule.conditions, p)
    ensures HitBy(rule, p)
  {
    hide Evaluate, Pins;
    if ItemPins(rule.conditions, "device_id") != [] && ItemPins(rule.conditions, "key") != []
       && ItemPins(rule.conditions, "type") != [] {
      var f, v :| IndexedField(f) && v in ItemPins(rule.conditions, f) && !Wild(v) && env.parseFloat(v).None?;
      PinsHold(env, rule.conditions.cond, p, f, v);
      EqualStrings(env, PointField(p, f), v);
      assert PointField(p, f) == v;
      assert InSlot(rule, f, v);
    }
  }

  /** After every such run, a rule leaving one of the three fields unpinned is returned for every point. */
  lemma UnpinnedAlwaysReturned(ops: seq<Op>, s: IndexState, p: Point, r: seq<Rule>, x: Rule, f: string)
    requires After(ops, s) && MatchResult(s, p, r)
    requires x in s.all && IndexedField(f) && ItemPins(x.conditions, f) == []
    ensures x in r
  {
    hide HitBy, Hits, ItemPins, After, MatchResult, Inv, Indexed, Disabled;
    AfterHolds(ops, s);
    UnpinnedHit(x, p, f);
    ReturnedIff(s, p, r, x);
  }

  lemma UnpinnedHit(x: Rule, p: Point, f: string)
    requires IndexedField(f) && ItemPins(x.conditions, f) == []
    ensures HitBy(x, p)
  {
    hide ItemPins;
    assert InSlot(x, f, "*");
  }

  /** With anchored rules the index never loses a firing rule; and it agrees with the scan exactly when a
      slot leads somewhere or no rule disabled since the last rebuild fires. */
  lemma IndexAgreesWithScan(env: Env, ops: seq<Op>, s: IndexState, p: Point, r: seq<Rule>)
    requires After(ops, s) && MatchResult(s, p, r)
    requires forall x | x in s.all :: Anchored(env, x)
    ensures forall x | x in s.all && Fires(env, x.conditions, p) :: x in r
    ensures AgreesWithScan(env, s, p, r) <==>
      LeadsSomewhere(Indexed(ops), p) || forall x | x in Disabled(ops) :: !Fires(env, x.conditions, p)
  {
    hide After, MatchResult, LeadsSomewhere, HitBy, Indexed, Disabled, Fires, Anchored, AgreesWithScan;
    forall x | x in Indexed(ops).Values && Fires(env, x.conditions, p)
      ensures HitBy(x, p)
    {
      MatchAfterRun(ops, s, p, r, x);
      AnchoredHit(env, x, p);
    }
    forall x | x in s.all && Fires(env, x.conditions, p)
      ensures x in r
    {
      MatchAfterRun(ops, s, p, r, x);
    }
    AgreesIff(env, ops, s, p, r);
  }

  // ----- Where agreement fails -----

  function Leaf(field: string, v: string): Condition {
    Condition("", field, "eq", Str(v), "", NoClause, NoClause, NilItem)
  }

  /** device = a AND key = k AND type = t. */
  function AllThree(a: string, k: string, t: string): Condition {
    Condition("", "", "", Nil, "",
      Clause(More(Sub(Leaf("device_id", a)), More(Sub(Leaf("key", k)), More(Sub(Leaf("type", t)), End)))),
      NoClause, NilItem)
  }

  function Negation(c: Condition): Condition {
    Condition("", "", "", Nil, "", NoClause, NoClause, Sub(c))
  }

  lemma PinsOfAllThree(a: string, k: string, t: string)
    ensures Pins(AllThree(a, k, t), "device_id") == [a]
    ensures Pins(AllThree(a, k, t), "key") == [k]
    ensures Pins(AllThree(a, k, t), "type") == [t]
    ensures Pins(Negation(AllThree(a, k, t)), "device_id") == [a]
    ensures Pins(Negation(AllThree(a, k, t)), "key") == [k]
    ensures Pins(Negation(AllThree(a, k, t)), "type") == [t]
  {
    PinsOfThree(a, k, t, "device_id");
    PinsOfThree(a, k, t, "key");
    PinsOfThree(a, k, t, "type");
  }

  lemma PinsOfThree(a: string, k: string, t: string, f: string)
    ensures Pins(AllThree(a, k, t), f)
         == (if f == "device_id" then [a] else []) + (if f == "key" then [k] else [])
            + (if f == "type" then [t] else [])
  {
    var l3 := More(Sub(Leaf("type", t)), End);
    var l2 := More(Sub(Leaf("key", k)), l3);
    var l1 := More(Sub(Leaf("device_id", a)), l2);
    assert Pins(Leaf("device_id", a), f) == if f == "device_id" then [a] else [];
    assert Pins(Leaf("key", k), f) == if f == "key" then [k] else [];
    assert Pins(Leaf("type", t), f) == if f == "type" then [t] else [];
    assert PinsOf(End, f) == [];
    assert PinsOf(l3, f) == if f == "type" then [t] else [];
    assert PinsOf(l1, f) == Pins(Leaf("device_id", a), f) + (Pins(Leaf("key", k), f) + PinsOf(l3, f));
  }

  lemma LeafValue(env: Env, f: string, v: string, p: Point)
    requires IndexedField(f)
    ensures Evaluate(env, Leaf(f, v), p) == if CompareValues(env, Str(PointField(p, f)), Str(v)) == 0 then Yes else No
  {
    hide CompareValues, IsBlank, FieldValue, PointField;
    IndexedFieldValue(env, f, p);
  }

  lemma AllThreeValue(env: Env, a: string, k: string, t: string, p: Point)
    ensures Evaluate(env, AllThree(a, k, t), p) == Yes <==>
      && CompareValues(env, Str(p.device), Str(a)) == 0
      && CompareValues(env, Str(p.key), Str(k)) == 0
      && CompareValues(env, Str(p.dataType), Str(t)) == 0
    ensures Evaluate(env, AllThree(a, k, t), p) != Error
  {
    hide CompareValues;
    LeafValue(env, "device_id", a, p);
    LeafValue(env, "key", k, p);
    LeafValue(env, "type", t, p);
    var l3 := More(Sub(Leaf("type", t)), End);
    var l2 := More(Sub(Leaf("key", k)), l3);
    hide Leaf;
    assert EvaluateAll(env, End, p) == Yes;
    assert EvaluateAll(env, l3, p) == Evaluate(env, Leaf("type", t), p);
    assert EvaluateAll(env, l2, p) == if Evaluate(env, Leaf("key", k), p) == Yes then EvaluateAll(env, l3, p) else No;
  }

  /** A firing rule that no slot leads to is lost as soon as another rule that pins nothing is indexed. */
  lemma LostBeside(env: Env, rule: Rule, other: Rule, s: IndexState, p: Point, r: seq<Rule>)
    requires rule.enabled && other.enabled && rule.id != other.id
    requires After([Add(rule), Add(other)], s) && MatchResult(s, p, r)
    requires Fires(env, rule.conditions, p) && !HitBy(rule, p) && ItemPins(other.conditions, "key") == []
    ensures rule in s.all && rule !in r && !AgreesWithScan(env, s, p, r)
  {
    hide After, MatchResult, Fires;
    var ops := [Add(rule), Add(other)];
    BothIndexed(rule, other);
    UnpinnedHit(other, p, "key");
    hide HitBy, Indexed;
    assert LeadsSomewhere(Indexed(ops), p);
    MatchAfterRun(ops, s, p, r, rule);
  }

  /** A negation that pins all three fields fires on points no slot leads from: such a rule is lost as
      soon as any other rule is led to. */
  lemma NegationNotHit(env: Env, rule: Rule, a: string, k: string, t: string, p: Point)
    requires rule.conditions == Sub(Negation(AllThree(a, k, t)))
    requires p.device != a && p.key != k && p.dataType != t && env.parseFloat(a).None?
    ensures Fires(env, rule.conditions, p) && !HitBy(rule, p)
  {
    hide CompareValues, AllThree, Pins;
    AllThreeValue(env, a, k, t, p);
    EqualStrings(env, p.device, a);
    PinsOfAllThree(a, k, t);
  }

  /** Numerals compare by value but are filed by spelling: device = 1 AND key = 1 AND type = 1 fires on a
      point spelled 1.0 throughout, and no slot leads to it. */
  lemma NumeralsNotHit(env: Env, rule: Rule, n: string, m: string)
    requires rule.conditions == Sub(AllThree(n, n, n)) && n != m
    requires env.parseFloat(n).Some? && env.parseFloat(m) == env.parseFloat(n) && env.parseFloat(n).value.Finite?
    ensures
      var p := Point(m, m, m, 0);
      Fires(env, rule.conditions, p) && !HitBy(rule, p)
  {
    hide CompareValues, AllThree, Pins;
    var p := Point(m, m, m, 0);
    AllThreeValue(env, n, n, n, p);
    EqualStrings(env, m, n);
    PinsOfAllThree(n, n, n);
  }

  // ----- A rule that pins a value twice -----

  /** f = a AND f = a. */
  function Twice(f: string, a: string): Condition {
    Condition("", "", "", Nil, "", Clause(More(Sub(Leaf(f, a)), More(Sub(Leaf(f, a)), End))), NoClause, NilItem)
  }

  lemma PinsOfTwice(a: string, f: string, g: string)
    requires IndexedField(f)
    ensures Pins(Twice(f, a), g) == if g == f then [a, a] else []
  {
    var l2 := More(Sub(Leaf(f, a)), End);
    assert Pins(Leaf(f, a), g) == if g == f then [a] else [];
    assert PinsOf(End, g) == [];
    assert PinsOf(l2, g) == if g == f then [a] else [];
  }

  /** Slot contents after adding a rule to an empty index and removing it again. */
  lemma LeftBehind(rule: Rule, slots: Slots, f: string, v: string)
    requires slots == Purge(FileRule(map[], rule, ItemPins(rule.conditions, f)), rule.id)
    ensures
      var n := FiledTimes(ItemPins(rule.conditions, f), v);
      Get(slots, v) == Copies(rule, if n == 0 then 0 else n - 1)
  {
    hide Purge, FileRule, RemoveFirst, ItemPins, FiledTimes;
    var n := FiledTimes(ItemPins(rule.conditions, f), v);
    PurgeGet(FileRule(map[], rule, ItemPins(rule.conditions, f)), rule.id, v);
    FileRuleGet(map[], rule, ItemPins(rule.conditions, f), v);
    assert Get(map[], v) == [];
    RemoveCopy([], rule, n);
    assert [] + Copies(rule, n) == Copies(rule, n);
    assert forall k: nat :: [] + Copies(rule, k) == Copies(rule, k);
  }

  /** Removing the only rule, or disabling it, leaves the same slots. */
  lemma SlotsAfterRemoval(rule: Rule, s: IndexState, t: IndexState)
    requires rule.enabled && Step(EMPTY, Add(rule), s)
    requires Step(s, Remove(rule), t) || Step(s, Add(rule.(enabled := false)), t)
    ensures t.device == Purge(FileRule(map[], rule, ItemPins(rule.conditions, "device_id")), rule.id)
    ensures t.key == Purge(FileRule(map[], rule, ItemPins(rule.conditions, "key")), rule.id)
    ensures t.types == Purge(FileRule(map[], rule, ItemPins(rule.conditions, "type")), rule.id)
    ensures t.all == []
  {
    hide FileRule, ItemPins, PriorityOrder;
    assert Purge(map[], rule.id) == map[];
    assert RemoveFirst([], rule.id) + [rule] == [rule];
    assert RemoveFirst([rule], rule.id) == [rule][1..] == [];
  }

  /** All that is left in the slots is copies of the rule. */
  lemma OnlyCopiesLeft(rule: Rule, t: IndexState, p: Point, x: Rule)
    requires t.device == Purge(FileRule(map[], rule, ItemPins(rule.conditions, "device_id")), rule.id)
    requires t.key == Purge(FileRule(map[], rule, ItemPins(rule.conditions, "key")), rule.id)
    requires t.types == Purge(FileRule(map[], rule, ItemPins(rule.conditions, "type")), rule.id)
    requires x in Hits(t, p)
    ensures x == rule
  {
    hide Purge, FileRule, ItemPins, Get, FiledTimes;
    LeftBehind(rule, t.device, "device_id", p.device);
    LeftBehind(rule, t.device, "device_id", "*");
    LeftBehind(rule, t.key, "key", p.key);
    LeftBehind(rule, t.key, "key", "*");
    LeftBehind(rule, t.types, "type", p.dataType);
    LeftBehind(rule, t.types, "type", "*");
  }

  lemma TwiceFiled(f: string, a: string, rule: Rule)
    requires IndexedField(f) && rule.conditions == Sub(Twice(f, a)) && !Wild(a)
    ensures FiledTimes(ItemPins(rule.conditions, f), a) == 2 && !PinsOnce(rule)
  {
    hide Twice, Pins;
    PinsOfTwice(a, f, f);
    var pins := ItemPins(rule.conditions, f);
    assert pins == [a, a] && pins[..1] == [a] && [a][..0] == [];
    assert Count([], a) == 0 && Count([a], a) == 1;
    assert pins[0] == pins[1];
  }

  /** Whatever is left of a removed or disabled rule is what Match returns. */
  lemma CopyReturned(rule: Rule, s: IndexState, t: IndexState, p: Point, r: seq<Rule>)
    requires rule.enabled && Step(EMPTY, Add(rule), s) && MatchResult(t, p, r) && Hits(t, p) != []
    requires Step(s, Remove(rule), t) || Step(s, Add(rule.(enabled := false)), t)
    ensures rule in r
  {
    hide Step, Purge, FileRule, ItemPins, Get, Hits;
    SlotsAfterRemoval(rule, s, t);
    var h := Hits(t, p)[0];
    assert h in Hits(t, p) && HasId(r, h.id);
    OnlyCopiesLeft(rule, t, p, h);
    var i :| 0 <= i < |r| && r[i].id == rule.id;
    assert r[i] in r && LastOf(Hits(t, p), r[i]);
    OnlyCopiesLeft(rule, t, p, r[i]);
  }

  /** A rule that pins its device twice is still returned for that device after it was removed. */
  lemma RemovedRuleStillReturned(rule: Rule, a: string, s: IndexState, t: IndexState, p: Point, r: seq<Rule>)
    requires rule.enabled && rule.conditions == Sub(Twice("device_id", a)) && !Wild(a) && p.device == a
    requires Step(EMPTY, Add(rule), s) && Step(s, Remove(rule), t) && MatchResult(t, p, r)
    ensures !PinsOnce(rule) && t.all == [] && rule in r
  {
    hide Step, Purge, FileRule, ItemPins, Get, FiledTimes, Twice, PinsOnce;
    SlotsAfterRemoval(rule, s, t);
    TwiceFiled("device_id", a, rule);
    LeftBehind(rule, t.device, "device_id", a);
    assert Get(t.device, a)[0] == rule;
    assert rule in Hits(t, p);
    CopyReturned(rule, s, t, p, r);
  }

  /** Enabling any rule and then disabling it in an otherwise empty index: every point still gets it. */
  lemma DisabledRuleStillReturned(rule: Rule, s: IndexState, t: IndexState, p: Point, r: seq<Rule>)
    requires rule.enabled && Step(EMPTY, Add(rule), s) && Step(s, Add(rule.(enabled := false)), t)
    requires MatchResult(t, p, r)
    ensures t.all == [] && rule in r
  {
    hide Purge, FileRule, ItemPins, Hits;
    SlotsAfterRemoval(rule, s, t);
    if Hits(t, p) == [] {
      assert RemoveFirst([], rule.id) + [rule] == [rule];
      assert rule in multiset(s.all);
      assert rule in multiset(s.byPriority);
    } else {
      CopyReturned(rule, s, t, p, r);
    }
  }

  /** The type slots after a rule was replaced in an otherwise empty index. */
  lemma SlotsAfterReplacing(was: Rule, now: Rule, s: IndexState, t: IndexState)
    requires was.enabled && now.enabled && was.id == now.id && Step(EMPTY, Add(was), s) && Step(s, Add(now), t)
    ensures t.all == [now]
    ensures t.types == FileRule(Purge(FileRule(map[], was, ItemPins(was.conditions, "type")), was.id), now,
                                ItemPins(now.conditions, "type"))
  {
    hide FileRule, ItemPins, PriorityOrder;
    assert Purge(map[], was.id) == map[];
    assert RemoveFirst([], was.id) + [was] == [was];
    assert RemoveFirst([was], was.id) == [was][1..] == [];
  }

  /** A type slot that only the replaced version was filed in, twice, keeps a copy of it. */
  lemma OldTypeSlot(was: Rule, now: Rule, t: string, types: Slots)
    requires was.conditions == Sub(Twice("type", t)) && !Wild(t)
    requires ItemPins(now.conditions, "type") != [] && t !in ItemPins(now.conditions, "type")
    requires types == FileRule(Purge(FileRule(map[], was, ItemPins(was.conditions, "type")), was.id), now,
                               ItemPins(now.conditions, "type"))
    ensures Get(types, t) == [was] && Get(types, "*") == []
  {
    hide Purge, FileRule, Get, Twice, PinsOnce;
    var left := Purge(FileRule(map[], was, ItemPins(was.conditions, "type")), was.id);
    var pins := ItemPins(now.conditions, "type");
    TwiceFiled("type", t, was);
    PinsOfTwice(t, "type", "type");
    hide Pins;
    LeftBehind(was, left, "type", t);
    LeftBehind(was, left, "type", "*");
    FileRuleGet(left, now, pins, t);
    FileRuleGet(left, now, pins, "*");
    CountFacts(pins, t);
    assert Copies(was, 1) == [was];
  }

  lemma LastIsOnly(rules: seq<Rule>, x: Rule, y: Rule)
    requires LastOf(rules + [x], y) && y.id == x.id
    ensures y == x
  {
    var all := rules + [x];
    assert all[|rules|] == x;
    var i :| 0 <= i < |all| && all[i] == y && forall j | i < j < |all| :: all[j].id != y.id;
  }

  /** A stale copy displaces the indexed version: the old version pinned its type twice, the new one excludes
      another type, fires on the point and is led to, but the slot read last still holds the old one. */
  lemma StaleVersionDisplaces(env: Env, was: Rule, now: Rule, v: string, u: string, s: IndexState, t: IndexState,
                              p: Point, r: seq<Rule>)
    requires was.enabled && now.enabled && was.id == now.id
    requires was.conditions == Sub(Twice("type", v)) && !Wild(v)
    requires now.conditions == Sub(Negation(Leaf("type", u))) && u != v && env.parseFloat(u).None?
    requires Step(EMPTY, Add(was), s) && Step(s, Add(now), t) && p.dataType == v && MatchResult(t, p, r)
    ensures t.all == [now] && Fires(env, now.conditions, p) && HitBy(now, p)
    ensures was in r && now !in r
  {
    hide Step, FileRule, Purge, Get, Twice, DistinctIds;
    ExcludedType(env, now, u, p);
    hide ItemPins, Fires, HitBy;
    SlotsAfterReplacing(was, now, s, t);
    OldTypeSlot(was, now, v, t.types);
    var before := Get(t.device, p.device) + Get(t.device, "*") + Get(t.key, p.key) + Get(t.key, "*");
    assert Hits(t, p) == before + [was];
    hide Hits;
    assert was in before + [was] by {
      assert (before + [was])[|before|] == was;
    }
    assert HasId(r, was.id);
    var i :| 0 <= i < |r| && r[i].id == was.id;
    assert r[i] in r;
    LastIsOnly(before, was, r[i]);
    if now in r {
      LastIsOnly(before, was, now);
    }
    assert was.conditions != now.conditions by {
      DifferentConditions(v, u);
    }
  }

  lemma DifferentConditions(v: string, u: string)
    ensures Twice("type", v) != Negation(Leaf("type", u))
  {
  }

  lemma ExcludedType(env: Env, rule: Rule, u: string, p: Point)
    requires rule.conditions == Sub(Negation(Leaf("type", u))) && p.dataType != u && env.parseFloat(u).None?
    ensures Fires(env, rule.conditions, p) && HitBy(rule, p) && ItemPins(rule.conditions, "type") == [u]
  {
    hide CompareValues;
    LeafValue(env, "type", u, p);
    EqualStrings(env, p.dataType, u);
    assert Pins(Leaf("type", u), "type") == [u] && Pins(Leaf("type", u), "key") == [];
    assert ItemPins(rule.conditions, "key") == [];
    UnpinnedHit(rule, p, "key");
  }

  // ----- The states and results above exist -----

  lemma NextExists(s: IndexState, op: Op) returns (t: IndexState)
    ensures Step(s, op, t)
  {
    hide RemoveId, Insert, SortedByPriority, PriorityOrder;
    match op
    case Add(rule) =>
      t := RemoveId(s, rule.id);
      if rule.enabled {
        t := Insert(t, rule);
        t := t.(byPriority := SortedByPriority(t.all));
      }
    case Remove(rule) =>
      t := RemoveId(s, rule.id);
      t := t.(byPriority := SortedByPriority(t.all));
    case Clear =>
      t := EMPTY;
  }

  /** Every sequence of operations leads to some state. */
  lemma {:induction false} RunExists(ops: seq<Op>) returns (states: seq<IndexState>)
    ensures IsRun(states, ops)
  {
    hide Step;
    if ops == [] {
      states := [EMPTY];
    } else {
      var front, op := ops[..|ops| - 1], ops[|ops| - 1];
      var before := RunExists(front);
      var t := NextExists(before[|front|], op);
      states := before + [t];
      assert forall i | 0 <= i < |front| :: ops[i] == front[i];
    }
  }

  /** A two-rule index as in LostBeside exists, and Match has a result on it. */
  lemma TwoRuleIndexExists(rule: Rule, other: Rule, p: Point) returns (s: IndexState, r: seq<Rule>)
    requires rule.enabled && other.enabled && rule.id != other.id
    requires !HitBy(rule, p) && HitBy(other, p)
    ensures After([Add(rule), Add(other)], s) && MatchResult(s, p, r) && r == [other]
  {
    hide IsRun, HitBy, MatchResult, StaleSince;
    TwoAddsNotStale(rule, other);
    var states := RunExists([Add(rule), Add(other)]);
    assert |states| == 3 by {
      RunLength(states, [Add(rule), Add(other)]);
    }
    s, r := states[2], [other];
    assert After([Add(rule), Add(other)], s);
    OneHit(rule, other, s, p);
  }

  lemma RunLength(states: seq<IndexState>, ops: seq<Op>)
    requires IsRun(states, ops)
    ensures |states| == |ops| + 1
  {
  }

  lemma OneHit(rule: Rule, other: Rule, s: IndexState, p: Point)
    requires rule.enabled && other.enabled && rule.id != other.id && After([Add(rule), Add(other)], s)
    requires !HitBy(rule, p) && HitBy(other, p)
    ensures MatchResult(s, p, [other])
  {
    hide After, Hits, HitBy, Indexed, Disabled, ListsReplay, Consistent;
    var ops := [Add(rule), Add(other)];
    AfterHolds(ops, s);
    BothIndexed(rule, other);
    forall x: Rule
      ensures x in Hits(s, p) <==> x == other
    {
      ReplayMember(s, Indexed(ops), Disabled(ops), x);
      HitsAre(s, p, x);
      assert x in Indexed(ops).Values <==> x == rule || x == other;
    }
    assert other in Hits(s, p);
    assert HasId([other], other.id) by {
      assert [other][0].id == other.id;
    }
    assert LastOf(Hits(s, p), other) by {
      assert Hits(s, p)[|Hits(s, p)| - 1] in Hits(s, p);
    }
  }

  lemma TwoAddsNotStale(rule: Rule, other: Rule)
    requires rule.id != other.id
    ensures !StaleSince([Add(rule), Add(other)])
  {
    hide StaleSince, PinsOnce;
    NothingStale();
    StaleStep([], Add(rule));
    StaleStep([Add(rule)], Add(other));
    assert [] + [Add(rule)] == [Add(rule)] && [Add(rule)] + [Add(other)] == [Add(rule), Add(other)];
    assert [Add(rule)][..0] == [];
    assert Indexed([]) == map[];
    assert other.id !in Indexed([Add(rule)]);
  }

  lemma BothIndexed(rule: Rule, other: Rule)
    requires rule.enabled && other.enabled && rule.id != other.id
    ensures
      var indexed := Indexed([Add(rule), Add(other)]);
      && indexed == map[rule.id := rule, other.id := other]
      && indexed[rule.id] == rule && indexed[other.id] == other
  {
    var ops := [Add(rule), Add(other)];
    assert ops[..1] == [Add(rule)] && [Add(rule)][..0] == [];
    assert Indexed([]) == map[] && Indexed([Add(rule)]) == map[rule.id := rule];
  }

  /** The negated rule beside one without conditions: a reachable index on which Match leaves out a rule
      that a scan fires. */
  lemma NegationLost(env: Env, rule: Rule, other: Rule, a: string, k: string, t: string, p: Point)
    returns (s: IndexState, r: seq<Rule>)
    requires rule.conditions == Sub(Negation(AllThree(a, k, t))) && other.conditions == NilItem
    requires p.device != a && p.key != k && p.dataType != t && env.parseFloat(a).None?
    requires rule.enabled && other.enabled && rule.id != other.id
    ensures After([Add(rule), Add(other)], s) && MatchResult(s, p, r)
    ensures rule in s.all && Fires(env, rule.conditions, p) && rule !in r
  {
    hide After, MatchResult, Fires, AllThree, Pins, HitBy;
    NegationNotHit(env, rule, a, k, t, p);
    UnconditionalHit(other, p);
    s, r := TwoRuleIndexExists(rule, other, p);
    LostBeside(env, rule, other, s, p, r);
  }

  /** Likewise the rule with numerals, for a point that spells them differently. */
  lemma NumeralsLost(env: Env, rule: Rule, other: Rule, n: string, m: string) returns (s: IndexState, r: seq<Rule>)
    requires rule.conditions == Sub(AllThree(n, n, n)) && other.conditions == NilItem && n != m
    requires env.parseFloat(n).Some? && env.parseFloat(m) == env.parseFloat(n) && env.parseFloat(n).value.Finite?
    requires rule.enabled && other.enabled && rule.id != other.id
    ensures After([Add(rule), Add(other)], s) && MatchResult(s, Point(m, m, m, 0), r)
    ensures rule in s.all && Fires(env, rule.conditions, Point(m, m, m, 0)) && rule !in r
  {
    hide After, MatchResult, Fires, AllThree, Pins, HitBy;
    NumeralsNotHit(env, rule, n, m);
    UnconditionalHit(other, Point(m, m, m, 0));
    s, r := TwoRuleIndexExists(rule, other, Point(m, m, m, 0));
    LostBeside(env, rule, other, s, Point(m, m, m, 0), r);
  }

  lemma UnconditionalHit(other: Rule, p: Point)
    requires other.conditions == NilItem
    ensures HitBy(other, p)
  {
    UnpinnedHit(other, p, "key");
  }
}
