/** The rule index: slots per device, key and type, the list of all rules and its priority-sorted copy. */
module RuleIndex {
  import opened Conditions

  /** Rules are values here; a change to a stored rule arrives as a new AddRule. */
  datatype Rule = Rule(id: string, enabled: bool, priority: int, conditions: Item)

  type Slots = map<string, seq<Rule>>

  datatype IndexState = IndexState(device: Slots, key: Slots, types: Slots, all: seq<Rule>, byPriority: seq<Rule>)

  const EMPTY := IndexState(map[], map[], map[], [], [])

  function Get(slots: Slots, v: string): seq<Rule> {
    if v in slots then slots[v] else []
  }

  predicate Wild(v: string) {
    v == "*" || v == ""
  }

  // ----- What each operation does -----

  /** Drops the first rule with the given ID. */
  function RemoveFirst(rules: seq<Rule>, id: string): seq<Rule> {
    if rules == [] then []
    else if rules[0].id == id then rules[1..]
    else [rules[0]] + RemoveFirst(rules[1..], id)
  }

  predicate HasId(rules: seq<Rule>, id: string) {
    exists i :: 0 <= i < |rules| && rules[i].id == id
  }

  /** Drops the first rule with the ID from every slot, and slots emptied thereby. */
  function Purge(slots: Slots, id: string): Slots {
    map v | v in slots && (HasId(slots[v], id) ==> RemoveFirst(slots[v], id) != []) :: RemoveFirst(slots[v], id)
  }

  /** Appends the rule to the slot of each pinned value; wildcards and empty values are skipped. */
  function AppendEach(slots: Slots, rule: Rule, pins: seq<string>): Slots {
    if pins == [] then slots
    else
      var t, v := AppendEach(slots, rule, pins[..|pins| - 1]), pins[|pins| - 1];
      if Wild(v) then t else t[v := Get(t, v) + [rule]]
  }

  /** A rule that pins nothing goes to the wildcard slot. */
  function FileRule(slots: Slots, rule: Rule, pins: seq<string>): Slots {
    if pins == [] then slots["*" := Get(slots, "*") + [rule]] else AppendEach(slots, rule, pins)
  }

  function RemoveId(s: IndexState, id: string): IndexState {
    IndexState(Purge(s.device, id), Purge(s.key, id), Purge(s.types, id), RemoveFirst(s.all, id), s.byPriority)
  }

  function Insert(s: IndexState, rule: Rule): IndexState {
    IndexState(FileRule(s.device, rule, ItemPins(rule.conditions, "device_id")),
               FileRule(s.key, rule, ItemPins(rule.conditions, "key")),
               FileRule(s.types, rule, ItemPins(rule.conditions, "type")),
               s.all + [rule], s.byPriority)
  }

  ghost predicate ByPriority(rules: seq<Rule>) {
    forall i, j | 0 <= i < j < |rules| :: rules[i].priority >= rules[j].priority
  }

  /** `r` is some priority ordering of `rules` (the sort is not stable). */
  ghost predicate PriorityOrder(r: seq<Rule>, rules: seq<Rule>) {
    ByPriority(r) && multiset(r) == multiset(rules)
  }

  function InsertByPriority(r: seq<Rule>, x: Rule): (t: seq<Rule>)
    requires ByPriority(r)
    ensures ByPriority(t) && multiset(t) == multiset(r) + multiset{x}
  {
    if r == [] || r[|r| - 1].priority >= x.priority then r + [x]
    else
      var front, y := r[..|r| - 1], r[|r| - 1];
      assert r == front + [y];
      var t := InsertByPriority(front, x);
      NoneLower(t, front, x, y);
      t + [y]
  }

  lemma NoneLower(t: seq<Rule>, front: seq<Rule>, x: Rule, y: Rule)
    requires multiset(t) == multiset(front) + multiset{x}
    requires x.priority >= y.priority && forall z | z in front :: z.priority >= y.priority
    ensures forall i | 0 <= i < |t| :: t[i].priority >= y.priority
  {
    forall i | 0 <= i < |t|
      ensures t[i].priority >= y.priority
    {
      assert t[i] in multiset(t);
      assert t[i] == x || t[i] in multiset(front);
      assert t[i] == x || t[i] in front;
    }
  }

  /** A priority ordering of the rules. */
  function SortedByPriority(rules: seq<Rule>): (r: seq<Rule>)
    ensures PriorityOrder(r, rules)
  {
    if rules == [] then []
    else
      assert rules == rules[..|rules| - 1] + [rules[|rules| - 1]];
      InsertByPriority(SortedByPriority(rules[..|rules| - 1]), rules[|rules| - 1])
  }

  datatype Op = Add(rule: Rule) | Remove(rule: Rule) | Clear

  /** Adding a disabled rule, the one operation that does not rebuild the priority list. */
  predicate Disables(op: Op) {
    op.Add? && !op.rule.enabled
  }

  /** The possible effects of an operation. Adding a disabled rule only removes the old version and
      leaves the priority list alone. */
  ghost predicate Step(s: IndexState, op: Op, t: IndexState) {
    match op
    case Add(rule) =>
      if rule.enabled then
        t == Insert(RemoveId(s, rule.id), rule).(byPriority := t.byPriority) && PriorityOrder(t.byPriority, t.all)
      else t == RemoveId(s, rule.id)
    case Remove(rule) =>
      t == RemoveId(s, rule.id).(byPriority := t.byPriority) && PriorityOrder(t.byPriority, t.all)
    case Clear => t == EMPTY
  }

  /** Everything in the six slots consulted for a point. */
  function Hits(s: IndexState, p: Point): seq<Rule> {
    Get(s.device, p.device) + Get(s.device, "*") + Get(s.key, p.key) + Get(s.key, "*")
    + Get(s.types, p.dataType) + Get(s.types, "*")
  }

  ghost predicate DistinctIds(rules: seq<Rule>) {
    forall i, j | 0 <= i < j < |rules| :: rules[i].id != rules[j].id
  }

  /** The last of the rules with its ID. */
  ghost predicate LastOf(rules: seq<Rule>, x: Rule) {
    exists i :: 0 <= i < |rules| && rules[i] == x && forall j | i < j < |rules| :: rules[j].id != x.id
  }

  /** What Match may return: for each ID found in the slots the last rule met with it, by priority; or, when
      the slots hold nothing for the point, the priority list. */
  ghost predicate MatchResult(s: IndexState, p: Point, r: seq<Rule>) {
    if Hits(s, p) == [] then r == s.byPriority
    else
      && ByPriority(r) && DistinctIds(r)
      && (forall x | x in r :: LastOf(Hits(s, p), x))
      && (forall h | h in Hits(s, p) :: HasId(r, h.id))
  }

  // ----- Rebuilding from the rule list -----

  /** The slot names a rule belongs to. */
  predicate InSlot(rule: Rule, f: string, v: string) {
    var pins := ItemPins(rule.conditions, f);
    if pins == [] then v == "*" else v in pins && !Wild(v)
  }

  function Count(pins: seq<string>, v: string): nat {
    if pins == [] then 0 else Count(pins[..|pins| - 1], v) + if pins[|pins| - 1] == v then 1 else 0
  }

  function Copies(rule: Rule, n: nat): (r: seq<Rule>)
    ensures |r| == n && forall i | 0 <= i < n :: r[i] == rule
  {
    seq(n, _ => rule)
  }

  /** How often filing appends a rule with these pins to slot `v`. */
  function FiledTimes(pins: seq<string>, v: string): nat {
    if pins == [] then (if v == "*" then 1 else 0) else if Wild(v) then 0 else Count(pins, v)
  }

  /** Slot `v` of field `f` as a rebuild fills it: each rule as often as it pins the value. */
  function Filed(rules: seq<Rule>, f: string, v: string): seq<Rule> {
    if rules == [] then []
    else Copies(rules[0], FiledTimes(ItemPins(rules[0].conditions, f), v)) + Filed(rules[1..], f, v)
  }

  ghost predicate NoEmptySlot(slots: Slots) {
    forall v | v in slots :: slots[v] != []
  }

  /** The slots of a field are exactly what a rebuild from the rule list gives, with no empty slot. */
  ghost predicate SlotsOk(slots: Slots, rules: seq<Rule>, f: string) {
    NoEmptySlot(slots) && forall v: string :: Get(slots, v) == Filed(rules, f, v)
  }

  ghost predicate Consistent(s: IndexState) {
    && DistinctIds(s.all)
    && SlotsOk(s.device, s.all, "device_id") && SlotsOk(s.key, s.all, "key") && SlotsOk(s.types, s.all, "type")
  }

  /** No value is pinned twice in the same field. */
  ghost predicate NoRepeats(pins: seq<string>) {
    forall i, j | 0 <= i < j < |pins| && pins[i] == pins[j] :: Wild(pins[i])
  }

  ghost predicate PinsOnce(rule: Rule) {
    && NoRepeats(ItemPins(rule.conditions, "device_id"))
    && NoRepeats(ItemPins(rule.conditions, "key"))
    && NoRepeats(ItemPins(rule.conditions, "type"))
  }

  // ----- Removing -----

  lemma NoIdTail(rules: seq<Rule>, id: string)
    requires rules != [] && !HasId(rules, id)
    ensures !HasId(rules[1..], id)
  {
    forall i | 0 <= i < |rules[1..]|
      ensures rules[1..][i].id != id
    {
      assert rules[1..][i] == rules[i + 1];
    }
  }

  lemma {:induction false} RemoveAbsent(rules: seq<Rule>, id: string)
    requires !HasId(rules, id)
    ensures RemoveFirst(rules, id) == rules
  {
    if rules != [] {
      assert rules[0].id != id;
      NoIdTail(rules, id);
      RemoveAbsent(rules[1..], id);
    }
  }

  lemma {:induction false} FiledHasId(rules: seq<Rule>, f: string, v: string, id: string)
    requires !HasId(rules, id)
    ensures !HasId(Filed(rules, f, v), id)
  {
    hide InSlot;
    forall x | x in Filed(rules, f, v)
      ensures x.id != id
    {
      FiledMember(rules, f, v, x);
      var i :| 0 <= i < |rules| && rules[i] == x;
    }
  }

  lemma FiledIffInSlot(rule: Rule, f: string, v: string)
    ensures FiledTimes(ItemPins(rule.conditions, f), v) > 0 <==> InSlot(rule, f, v)
  {
    CountFacts(ItemPins(rule.conditions, f), v);
  }

  /** Membership in a rebuilt slot. */
  lemma {:induction false} FiledMember(rules: seq<Rule>, f: string, v: string, x: Rule)
    ensures x in Filed(rules, f, v) <==> x in rules && InSlot(x, f, v)
  {
    hide InSlot, FiledTimes, ItemPins;
    if rules != [] {
      FiledIffInSlot(rules[0], f, v);
      FiledMember(rules[1..], f, v, x);
      assert x in rules <==> x == rules[0] || x in rules[1..];
      var n := FiledTimes(ItemPins(rules[0].conditions, f), v);
      assert x in Copies(rules[0], n) <==> x == rules[0] && n > 0 by {
        if n > 0 {
          assert Copies(rules[0], n)[0] == rules[0];
        }
      }
    }
  }

  lemma DistinctTail(rules: seq<Rule>)
    requires DistinctIds(rules) && rules != []
    ensures DistinctIds(rules[1..]) && !HasId(rules[1..], rules[0].id)
  {
    forall i | 0 <= i < |rules[1..]|
      ensures rules[1..][i].id != rules[0].id
    {
      assert rules[1..][i] == rules[i + 1];
    }
  }

  lemma {:induction false} RemoveSkips(y: Rule, n: nat, rest: seq<Rule>, id: string)
    requires y.id != id
    ensures RemoveFirst(Copies(y, n) + rest, id) == Copies(y, n) + RemoveFirst(rest, id)
  {
    if n == 0 {
      assert Copies(y, 0) + rest == rest;
    } else {
      assert (Copies(y, n) + rest)[1..] == Copies(y, n - 1) + rest;
      RemoveSkips(y, n - 1, rest, id);
      assert Copies(y, n) == [y] + Copies(y, n - 1);
    }
  }

  /** Removing an ID from a slot against removing it from the list and rebuilding: the slot keeps all copies
      of the rule but one. */
  lemma {:induction false} RemoveFiled(rules: seq<Rule>, f: string, v: string, x: Rule)
    requires DistinctIds(rules) && x in rules
    ensures
      var kept, n := RemoveFirst(Filed(rules, f, v), x.id), FiledTimes(ItemPins(x.conditions, f), v);
      var rebuilt := Filed(RemoveFirst(rules, x.id), f, v);
      |kept| == |rebuilt| + (if n == 0 then 0 else n - 1) && (n <= 1 ==> kept == rebuilt)
  {
    hide FiledTimes, ItemPins;
    var y := rules[0];
    var m, rest := FiledTimes(ItemPins(y.conditions, f), v), Filed(rules[1..], f, v);
    DistinctTail(rules);
    if y.id == x.id {
      SameIdSameRule(rules, x, y);
      FiledHasId(rules[1..], f, v, x.id);
      RemoveAbsent(rest, x.id);
      if m > 0 {
        assert (Copies(x, m) + rest)[1..] == Copies(x, m - 1) + rest;
      } else {
        assert Copies(x, 0) + rest == rest;
      }
    } else {
      RemoveFiled(rules[1..], f, v, x);
      RemoveSkips(y, m, rest, x.id);
      assert ([y] + RemoveFirst(rules[1..], x.id))[1..] == RemoveFirst(rules[1..], x.id);
    }
  }

  lemma RemoveFiledAbsent(rules: seq<Rule>, f: string, v: string, id: string)
    requires !HasId(rules, id)
    ensures RemoveFirst(Filed(rules, f, v), id) == Filed(RemoveFirst(rules, id), f, v)
  {
    FiledHasId(rules, f, v, id);
    RemoveAbsent(rules, id);
    RemoveAbsent(Filed(rules, f, v), id);
  }

  lemma {:induction false} RemoveFirstFacts(rules: seq<Rule>, id: string)
    ensures forall x | x in RemoveFirst(rules, id) :: x in rules
    ensures DistinctIds(rules) ==> DistinctIds(RemoveFirst(rules, id)) && !HasId(RemoveFirst(rules, id), id)
  {
    if rules != [] {
      RemoveFirstFacts(rules[1..], id);
      if DistinctIds(rules) {
        DistinctTail(rules);
        var r := RemoveFirst(rules[1..], id);
        forall i | 0 <= i < |r|
          ensures r[i].id != rules[0].id
        {
          assert r[i] in rules[1..];
        }
      }
    }
  }

  lemma PurgeGet(slots: Slots, id: string, v: string)
    ensures Get(Purge(slots, id), v) == RemoveFirst(Get(slots, v), id)
  {
    if v in slots && v !in Purge(slots, id) {
      assert RemoveFirst(slots[v], id) == [];
    }
  }

  /** The rule indexed under the ID, if there is one, pins no value of the field twice. */
  ghost predicate RemovedOnce(rules: seq<Rule>, id: string, f: string) {
    forall x | x in rules && x.id == id :: NoRepeats(ItemPins(x.conditions, f))
  }

  /** Purging an ID is rebuilding without its rule exactly when that rule pins no value twice. */
  lemma PurgeOk(slots: Slots, rules: seq<Rule>, f: string, id: string)
    requires SlotsOk(slots, rules, f) && DistinctIds(rules)
    ensures NoEmptySlot(Purge(slots, id))
    ensures SlotsOk(Purge(slots, id), RemoveFirst(rules, id), f) <==> RemovedOnce(rules, id, f)
    ensures !RemovedOnce(rules, id, f) ==>
      exists v :: |Get(Purge(slots, id), v)| > |Filed(RemoveFirst(rules, id), f, v)|
  {
    hide Filed, Purge, RemoveFirst, ItemPins, NoRepeats, DistinctIds, Get;
    PurgeNonEmpty(slots, id);
    if HasId(rules, id) {
      var i :| 0 <= i < |rules| && rules[i].id == id;
      var x := rules[i];
      forall y | y in rules && y.id == id
        ensures y == x
      {
        SameIdSameRule(rules, x, y);
      }
      forall v: string
        ensures
          var n := FiledTimes(ItemPins(x.conditions, f), v);
          var kept, rebuilt := Get(Purge(slots, id), v), Filed(RemoveFirst(rules, id), f, v);
          |kept| == |rebuilt| + (if n == 0 then 0 else n - 1) && (n <= 1 ==> kept == rebuilt)
      {
        PurgeGet(slots, id, v);
        RemoveFiled(rules, f, v, x);
      }
      FiledTwiceIff(ItemPins(x.conditions, f));
    } else {
      forall v: string
        ensures Get(Purge(slots, id), v) == Filed(RemoveFirst(rules, id), f, v)
      {
        PurgeGet(slots, id, v);
        RemoveFiledAbsent(rules, f, v, id);
      }
    }
  }

  lemma FiledTwiceIff(pins: seq<string>)
    ensures NoRepeats(pins) <==> forall v: string :: FiledTimes(pins, v) <= 1
  {
    hide Count;
    if NoRepeats(pins) {
      forall v: string
        ensures FiledTimes(pins, v) <= 1
      {
        CountFacts(pins, v);
      }
    } else {
      var i, j :| 0 <= i < j < |pins| && pins[i] == pins[j] && !Wild(pins[i]);
      CountTwo(pins, i, j);
      assert FiledTimes(pins, pins[i]) >= 2;
    }
  }

  lemma PurgeNonEmpty(slots: Slots, id: string)
    requires NoEmptySlot(slots)
    ensures NoEmptySlot(Purge(slots, id))
  {
    forall v | v in Purge(slots, id)
      ensures Purge(slots, id)[v] != []
    {
      if !HasId(slots[v], id) {
        RemoveAbsent(slots[v], id);
      }
    }
  }

  // ----- Filing -----

  lemma {:induction false} AppendEachGet(slots: Slots, rule: Rule, pins: seq<string>, v: string)
    ensures Get(AppendEach(slots, rule, pins), v) == Get(slots, v) + Copies(rule, if Wild(v) then 0 else Count(pins, v))
  {
    if pins != [] {
      var n := |pins| - 1;
      AppendEachGet(slots, rule, pins[..n], v);
      if pins[n] == v && !Wild(v) {
        assert Copies(rule, Count(pins, v)) == Copies(rule, Count(pins[..n], v)) + [rule];
      }
    }
  }

  /** Filing appends one copy of the rule per matching pin. */
  lemma FileRuleGet(slots: Slots, rule: Rule, pins: seq<string>, v: string)
    ensures Get(FileRule(slots, rule, pins), v) == Get(slots, v) + Copies(rule, FiledTimes(pins, v))
  {
    if pins == [] {
      assert Copies(rule, 1) == [rule];
    } else {
      AppendEachGet(slots, rule, pins, v);
    }
  }

  /** A rule that pins a field only to the empty string or the wildcard is in no slot of that field. */
  lemma WildcardsSkipped(slots: Slots, rule: Rule)
    ensures FileRule(slots, rule, [""]) == slots && FileRule(slots, rule, ["*"]) == slots
    ensures FileRule(slots, rule, ["", "*"]) == slots
  {
    assert ["", "*"][..1] == [""] && [""][..0] == [] && ["*"][..0] == [];
    assert AppendEach(slots, rule, []) == slots;
    assert AppendEach(slots, rule, [""]) == slots;
  }

  lemma {:induction false} AppendEachNonEmpty(slots: Slots, rule: Rule, pins: seq<string>)
    requires NoEmptySlot(slots)
    ensures NoEmptySlot(AppendEach(slots, rule, pins))
  {
    if pins != [] {
      AppendEachNonEmpty(slots, rule, pins[..|pins| - 1]);
    }
  }

  lemma {:induction false} CountFacts(pins: seq<string>, v: string)
    ensures Count(pins, v) > 0 <==> v in pins
    ensures NoRepeats(pins) && !Wild(v) ==> Count(pins, v) <= 1
  {
    if pins != [] {
      var n := |pins| - 1;
      CountFacts(pins[..n], v);
      assert v in pins <==> v in pins[..n] || v == pins[n];
      if NoRepeats(pins) && pins[n] == v && v in pins[..n] {
        var i :| 0 <= i < n && pins[..n][i] == v;
        assert pins[i] == pins[n];
      }
    }
  }

  lemma {:induction false} FiledAppend(rules: seq<Rule>, rule: Rule, f: string, v: string)
    ensures Filed(rules + [rule], f, v)
         == Filed(rules, f, v) + Copies(rule, FiledTimes(ItemPins(rule.conditions, f), v))
  {
    hide FiledTimes, ItemPins;
    if rules == [] {
      assert [] + [rule] == [rule];
      assert Filed([rule][1..], f, v) == [];
    } else {
      FiledAppend(rules[1..], rule, f, v);
      assert (rules + [rule])[1..] == rules[1..] + [rule];
    }
  }

  /** Filing a rule is rebuilding with it, repeated pins included: it neither repairs nor spoils a slot. */
  lemma FileRuleOk(slots: Slots, rules: seq<Rule>, rule: Rule, f: string)
    requires NoEmptySlot(slots)
    ensures NoEmptySlot(FileRule(slots, rule, ItemPins(rule.conditions, f)))
    ensures SlotsOk(FileRule(slots, rule, ItemPins(rule.conditions, f)), rules + [rule], f)
       <==> SlotsOk(slots, rules, f)
  {
    hide Filed, ItemPins, AppendEach, FiledTimes;
    var pins := ItemPins(rule.conditions, f);
    AppendEachNonEmpty(slots, rule, pins);
    assert NoEmptySlot(FileRule(slots, rule, pins));
    hide FileRule, Get;
    forall v: string
      ensures Get(FileRule(slots, rule, pins), v) == Get(slots, v) + Copies(rule, FiledTimes(pins, v))
      ensures Filed(rules + [rule], f, v) == Filed(rules, f, v) + Copies(rule, FiledTimes(pins, v))
    {
      FileRuleGet(slots, rule, pins, v);
      FiledAppend(rules, rule, f, v);
    }
    if SlotsOk(FileRule(slots, rule, pins), rules + [rule], f) {
      forall v: string
        ensures Get(slots, v) == Filed(rules, f, v)
      {
        SamePrefix(Get(slots, v), Filed(rules, f, v), Copies(rule, FiledTimes(pins, v)));
      }
    }
  }

  lemma SamePrefix(a: seq<Rule>, b: seq<Rule>, c: seq<Rule>)
    requires a + c == b + c
    ensures a == b
  {
    assert |a| == |b|;
    assert forall i | 0 <= i < |a| :: a[i] == (a + c)[i] == (b + c)[i] == b[i];
  }

  // ----- The index is always what a rebuild would give -----

  ghost predicate NoEmptySlots(s: IndexState) {
    NoEmptySlot(s.device) && NoEmptySlot(s.key) && NoEmptySlot(s.types)
  }

  /** Removing the ID takes out an indexed rule that pins a value twice. */
  ghost predicate LeavesCopy(s: IndexState, id: string) {
    exists x :: x in s.all && x.id == id && !PinsOnce(x)
  }

  lemma RemoveIdConsistent(s: IndexState, id: string)
    requires Consistent(s)
    ensures Consistent(RemoveId(s, id)) <==> !LeavesCopy(s, id)
    ensures NoEmptySlots(RemoveId(s, id)) && DistinctIds(RemoveId(s, id).all) && !HasId(RemoveId(s, id).all, id)
  {
    hide SlotsOk, DistinctIds, NoRepeats, Purge, RemoveFirst, ItemPins, NoEmptySlot;
    RemoveFirstFacts(s.all, id);
    PurgeOk(s.device, s.all, "device_id", id);
    PurgeOk(s.key, s.all, "key", id);
    PurgeOk(s.types, s.all, "type", id);
  }

  lemma InsertConsistent(s: IndexState, rule: Rule)
    requires NoEmptySlots(s) && DistinctIds(s.all) && !HasId(s.all, rule.id)
    ensures Consistent(Insert(s, rule)) <==> Consistent(s)
  {
    hide SlotsOk, FileRule, ItemPins, NoEmptySlot;
    FileRuleOk(s.device, s.all, rule, "device_id");
    FileRuleOk(s.key, s.all, rule, "key");
    FileRuleOk(s.types, s.all, rule, "type");
    assert forall i | 0 <= i < |s.all| :: s.all[i].id != rule.id;
  }

  /** Every rule of the list is in the priority list. */
  ghost predicate Covers(s: IndexState) {
    multiset(s.all) <= multiset(s.byPriority)
  }

  ghost predicate Inv(s: IndexState) {
    Consistent(s) && Covers(s) && ByPriority(s.byPriority)
  }

  lemma {:induction false} RemoveShrinks(rules: seq<Rule>, id: string)
    ensures multiset(RemoveFirst(rules, id)) <= multiset(rules)
  {
    if rules != [] {
      assert rules == [rules[0]] + rules[1..];
      RemoveShrinks(rules[1..], id);
    }
  }

  /** The operation removes or replaces an indexed rule that pins a value twice. */
  ghost predicate LeavesStale(s: IndexState, op: Op) {
    !op.Clear? && LeavesCopy(s, op.rule.id)
  }

  /** An operation keeps the index equal to a rebuild exactly when it does not remove or replace a rule that
      pins a value twice. Afterwards the priority list is current, except that adding a disabled rule leaves
      it current exactly when it was current before and the rule's ID was not indexed. */
  lemma StepInv(s: IndexState, op: Op, t: IndexState)
    requires Inv(s) && Step(s, op, t)
    ensures Inv(t) <==> !LeavesStale(s, op)
    ensures PriorityOrder(t.byPriority, t.all) <==>
      (Disables(op) ==> PriorityOrder(s.byPriority, s.all) && !HasId(s.all, op.rule.id))
  {
    hide LeavesCopy, NoEmptySlots;
    match op
    case Add(rule) =>
      hide Consistent, Insert, RemoveFirst, Purge;
      ConsistentIds(s);
      RemoveIdConsistent(s, rule.id);
      if rule.enabled {
        InsertConsistent(RemoveId(s, rule.id), rule);
        SameButPriority(Insert(RemoveId(s, rule.id), rule), t);
      } else {
        RemoveShrinks(s.all, rule.id);
        CurrentAfterDisabling(s, rule.id);
      }
    case Remove(rule) =>
      hide Consistent, Purge, RemoveFirst;
      RemoveIdConsistent(s, rule.id);
      SameButPriority(RemoveId(s, rule.id), t);
    case Clear =>
      EmptyConsistent();
  }

  lemma ConsistentIds(s: IndexState)
    requires Consistent(s)
    ensures DistinctIds(s.all)
  {
  }

  lemma SameButPriority(s: IndexState, t: IndexState)
    requires t == s.(byPriority := t.byPriority)
    ensures Consistent(t) <==> Consistent(s)
  {
    hide SlotsOk, DistinctIds;
  }

  /** A complete list stays the right one after a removal only if nothing was removed. */
  lemma CurrentAfterDisabling(s: IndexState, id: string)
    requires DistinctIds(s.all) && Covers(s)
    ensures PriorityOrder(s.byPriority, RemoveFirst(s.all, id)) <==>
      PriorityOrder(s.byPriority, s.all) && !HasId(s.all, id)
  {
    hide RemoveFirst, DistinctIds;
    if HasId(s.all, id) {
      var i :| 0 <= i < |s.all| && s.all[i].id == id;
      RemoveTakesOne(s.all, s.all[i]);
      assert multiset(s.byPriority)[s.all[i]] > multiset(RemoveFirst(s.all, id))[s.all[i]];
    } else {
      RemoveAbsent(s.all, id);
    }
  }

  /** With distinct IDs, removing the ID of a rule takes out that rule and nothing else. */
  lemma {:induction false} RemoveTakesOne(rules: seq<Rule>, x: Rule)
    requires DistinctIds(rules) && x in rules
    ensures multiset(rules) == multiset(RemoveFirst(rules, x.id)) + multiset{x}
  {
    assert rules == [rules[0]] + rules[1..];
    if rules[0].id == x.id {
      SameIdSameRule(rules, x, rules[0]);
    } else {
      DistinctTail(rules);
      RemoveTakesOne(rules[1..], x);
    }
  }

  lemma SameIdSameRule(rules: seq<Rule>, x: Rule, y: Rule)
    requires DistinctIds(rules) && x in rules && y in rules && x.id == y.id
    ensures x == y
  {
  }

  lemma EmptyConsistent()
    ensures Inv(EMPTY)
  {
  }

  /** A run: the states passed through by a sequence of operations from the empty index. */
  ghost predicate IsRun(states: seq<IndexState>, ops: seq<Op>) {
    && |states| == |ops| + 1 && states[0] == EMPTY
    && forall i | 0 <= i < |ops| :: Step(states[i], ops[i], states[i + 1])
  }

  // ----- When the priority list is current -----

  /** The indexed rules by ID, replayed from the operations alone. */
  function Indexed(ops: seq<Op>): map<string, Rule> {
    if ops == [] then map[]
    else
      var before := Indexed(ops[..|ops| - 1]);
      match ops[|ops| - 1]
      case Add(rule) => if rule.enabled then before[rule.id := rule] else before - {rule.id}
      case Remove(rule) => before - {rule.id}
      case Clear => map[]
  }

  /** The rules that were taken out by adding a disabled version since the priority list was last rebuilt. */
  function Disabled(ops: seq<Op>): set<Rule> {
    if ops == [] then {}
    else
      var front, op := ops[..|ops| - 1], ops[|ops| - 1];
      if !Disables(op) then {}
      else Disabled(front) + if op.rule.id in Indexed(front) then {Indexed(front)[op.rule.id]} else {}
  }

  /** A rule list holds exactly the rules of a replay. */
  ghost predicate Replays(rules: seq<Rule>, indexed: map<string, Rule>) {
    && DistinctIds(rules)
    && (forall id | id in indexed :: indexed[id].id == id)
    && (forall x: Rule :: x in rules <==> x.id in indexed && indexed[x.id] == x)
  }

  /** The rule list is the replay, and the priority list is the rule list plus the disabled rules. */
  ghost predicate ListsReplay(s: IndexState, indexed: map<string, Rule>, disabled: set<Rule>) {
    && Replays(s.all, indexed) && ByPriority(s.byPriority)
    && multiset(s.byPriority) == multiset(s.all) + multiset(disabled)
    && (forall x | x in disabled :: x.id !in indexed)
  }

  lemma {:induction false} RemoveMember(rules: seq<Rule>, id: string, x: Rule)
    requires DistinctIds(rules)
    ensures x in RemoveFirst(rules, id) <==> x in rules && x.id != id
  {
    if rules != [] {
      DistinctTail(rules);
      RemoveMember(rules[1..], id, x);
      assert x in rules <==> x == rules[0] || x in rules[1..];
    }
  }

  lemma RemovedReplay(rules: seq<Rule>, indexed: map<string, Rule>, id: string)
    requires Replays(rules, indexed)
    ensures Replays(RemoveFirst(rules, id), indexed - {id}) && !HasId(RemoveFirst(rules, id), id)
    ensures multiset(rules)
         == multiset(RemoveFirst(rules, id)) + if id in indexed then multiset{indexed[id]} else multiset{}
  {
    hide DistinctIds, RemoveFirst;
    RemoveFirstFacts(rules, id);
    forall x: Rule
      ensures x in RemoveFirst(rules, id) <==> x in rules && x.id != id
    {
      RemoveMember(rules, id, x);
    }
    if id in indexed {
      RemoveTakesOne(rules, indexed[id]);
    } else {
      assert forall i | 0 <= i < |rules| :: rules[i] in rules;
      RemoveAbsent(rules, id);
    }
  }

  lemma AppendedReplay(rules: seq<Rule>, indexed: map<string, Rule>, rule: Rule)
    requires Replays(rules, indexed) && !HasId(rules, rule.id)
    ensures Replays(rules + [rule], indexed[rule.id := rule])
  {
    assert forall i | 0 <= i < |rules| :: rules[i].id != rule.id;
  }

  lemma OneMoreDisabled(list: multiset<Rule>, rest: multiset<Rule>, disabled: set<Rule>, x: Rule)
    requires list == rest + multiset{x} + multiset(disabled) && x !in disabled
    ensures list == rest + multiset(disabled + {x})
  {
    assert multiset(disabled + {x}) == multiset(disabled) + multiset{x};
  }

  lemma ReplayedId(rules: seq<Rule>, indexed: map<string, Rule>, id: string)
    requires Replays(rules, indexed) && id in indexed
    ensures indexed[id].id == id
  {
  }

  lemma DisablingReplay(s: IndexState, indexed: map<string, Rule>, disabled: set<Rule>, id: string)
    requires ListsReplay(s, indexed, disabled)
    ensures ListsReplay(s.(all := RemoveFirst(s.all, id)), indexed - {id},
                        disabled + if id in indexed then {indexed[id]} else {})
  {
    hide Replays, RemoveFirst, ByPriority;
    RemovedReplay(s.all, indexed, id);
    if id in indexed {
      ReplayedId(s.all, indexed, id);
      OneMoreDisabled(multiset(s.byPriority), multiset(RemoveFirst(s.all, id)), disabled, indexed[id]);
    } else {
      assert disabled + {} == disabled;
    }
  }

  lemma StepReplay(s: IndexState, op: Op, t: IndexState, ops: seq<Op>)
    requires ListsReplay(s, Indexed(ops), Disabled(ops)) && Step(s, op, t)
    ensures ListsReplay(t, Indexed(ops + [op]), Disabled(ops + [op]))
  {
    hide Replays, RemoveFirst, ByPriority, Purge, FileRule, ItemPins;
    assert (ops + [op])[..|ops|] == ops;
    var indexed, disabled := Indexed(ops), Disabled(ops);
    match op
    case Add(rule) =>
      if rule.enabled {
        RemovedReplay(s.all, indexed, rule.id);
        AppendedReplay(RemoveFirst(s.all, rule.id), indexed - {rule.id}, rule);
        assert (indexed - {rule.id})[rule.id := rule] == indexed[rule.id := rule];
      } else {
        hide ListsReplay;
        DisablingReplay(s, indexed, disabled, rule.id);
        assert t == RemoveId(s, rule.id);
        SameLists(s.(all := RemoveFirst(s.all, rule.id)), t, Indexed(ops + [op]), Disabled(ops + [op]));
      }
    case Remove(rule) =>
      RemovedReplay(s.all, indexed, rule.id);
    case Clear =>
      hide ListsReplay;
      EmptyReplay();
  }

  lemma SameLists(s: IndexState, t: IndexState, indexed: map<string, Rule>, disabled: set<Rule>)
    requires ListsReplay(s, indexed, disabled) && t.all == s.all && t.byPriority == s.byPriority
    ensures ListsReplay(t, indexed, disabled)
  {
    hide Replays, ByPriority;
  }

  lemma EmptyReplay()
    ensures ListsReplay(EMPTY, map[], {})
  {
  }

  /** Over every run, repeated pins included: the rule list is the replay of the operations, the priority
      list holds it together with the rules disabled since the last rebuild, and so it is current exactly
      when no indexed rule has been disabled since. */
  lemma {:induction false} PriorityCurrentIff(states: seq<IndexState>, ops: seq<Op>, i: nat)
    requires IsRun(states, ops) && i < |states|
    ensures ListsReplay(states[i], Indexed(ops[..i]), Disabled(ops[..i]))
    ensures PriorityOrder(states[i].byPriority, states[i].all) <==> Disabled(ops[..i]) == {}
  {
    hide Step;
    if i == 0 {
      EmptyReplay();
    } else {
      hide ListsReplay, Indexed, Disabled, PriorityOrder;
      PriorityCurrentIff(states, ops, i - 1);
      assert Step(states[i - 1], ops[i - 1], states[i - 1 + 1]);
      StepReplay(states[i - 1], ops[i - 1], states[i], ops[..i - 1]);
      assert ops[..i - 1] + [ops[i - 1]] == ops[..i];
    }
    CurrentIff(states[i], Indexed(ops[..i]), Disabled(ops[..i]));
  }

  lemma CurrentIff(s: IndexState, indexed: map<string, Rule>, disabled: set<Rule>)
    requires ListsReplay(s, indexed, disabled)
    ensures PriorityOrder(s.byPriority, s.all) <==> disabled == {}
  {
    if x :| x in disabled {
      assert x in multiset(disabled);
    }
  }

  // ----- When the index is what a rebuild would give -----

  /** After the given operations, the next one removes or replaces an indexed rule that pins a value twice. */
  ghost predicate LeavesStaleAfter(ops: seq<Op>, op: Op) {
    !op.Clear? && op.rule.id in Indexed(ops) && !PinsOnce(Indexed(ops)[op.rule.id])
  }

  /** How many operations there are up to the last Clear, that one included. */
  function LastClear(ops: seq<Op>): (n: nat)
    ensures n <= |ops|
  {
    if ops == [] then 0 else if ops[|ops| - 1].Clear? then |ops| else LastClear(ops[..|ops| - 1])
  }

  ghost predicate StaleAt(ops: seq<Op>, k: nat)
    requires k < |ops|
  {
    LeavesStaleAfter(ops[..k], ops[k])
  }

  /** Some operation since the last Clear did so. */
  ghost predicate StaleSince(ops: seq<Op>) {
    exists k :: LastClear(ops) <= k < |ops| && StaleAt(ops, k)
  }

  lemma StaleAtPrefix(ops: seq<Op>, op: Op, k: nat)
    requires k <= |ops|
    ensures StaleAt(ops + [op], k) <==> if k < |ops| then StaleAt(ops, k) else LeavesStaleAfter(ops, op)
  {
    hide LeavesStaleAfter;
    assert (ops + [op])[..k] == ops[..k];
    assert k == |ops| ==> ops[..k] == ops;
  }

  lemma ClearStep(ops: seq<Op>, op: Op)
    ensures LastClear(ops + [op]) == if op.Clear? then |ops| + 1 else LastClear(ops)
  {
    assert (ops + [op])[..|ops|] == ops;
  }

  lemma StaleStep(ops: seq<Op>, op: Op)
    ensures StaleSince(ops + [op]) <==> !op.Clear? && (StaleSince(ops) || LeavesStaleAfter(ops, op))
  {
    hide LeavesStaleAfter, StaleAt, LastClear;
    ClearStep(ops, op);
    forall k: nat | k <= |ops|
      ensures StaleAt(ops + [op], k) <==> if k < |ops| then StaleAt(ops, k) else LeavesStaleAfter(ops, op)
    {
      StaleAtPrefix(ops, op, k);
    }
    if !op.Clear? && LeavesStaleAfter(ops, op) {
      assert StaleAt(ops + [op], |ops|);
    } else if !op.Clear? && StaleSince(ops) {
      var k :| LastClear(ops) <= k < |ops| && StaleAt(ops, k);
      assert StaleAt(ops + [op], k);
    }
  }

  lemma StaleByReplay(s: IndexState, ops: seq<Op>, op: Op)
    requires Replays(s.all, Indexed(ops))
    ensures LeavesStale(s, op) <==> LeavesStaleAfter(ops, op)
  {
    hide PinsOnce, Indexed, DistinctIds;
    if LeavesStaleAfter(ops, op) {
      var x := Indexed(ops)[op.rule.id];
      assert x in s.all;
    }
  }

  lemma ReplaysAll(s: IndexState, indexed: map<string, Rule>, disabled: set<Rule>)
    requires ListsReplay(s, indexed, disabled)
    ensures Replays(s.all, indexed)
  {
  }

  /** Over every run: since the last Clear the index has always been what a rebuild gives - every slot holds
      each rule as often as it pins the value, no slot is empty, IDs are distinct, the priority list is sorted
      and complete - exactly when no operation since removed or replaced a rule that pins a value twice. */
  lemma {:induction false} RunInv(states: seq<IndexState>, ops: seq<Op>, i: nat)
    requires IsRun(states, ops) && i < |states|
    ensures (forall j | LastClear(ops[..i]) <= j <= i :: Inv(states[j])) <==> !StaleSince(ops[..i])
  {
    hide Inv, Step, PriorityOrder, StaleSince, LastClear, ListsReplay, Indexed, Disabled, LeavesStale, LeavesStaleAfter,
      Replays;
    if i == 0 {
      EmptyConsistent();
      NothingStale();
      assert ops[..0] == [];
    } else {
      var front, op := ops[..i - 1], ops[i - 1];
      RunInv(states, ops, i - 1);
      assert Step(states[i - 1], op, states[i - 1 + 1]);
      assert front + [op] == ops[..i];
      ClearStep(front, op);
      StaleStep(front, op);
      if op.Clear? {
        ClearedEmpty(states[i - 1], states[i]);
        EmptyConsistent();
      } else if !StaleSince(front) {
        assert Inv(states[i - 1]);
        StepInv(states[i - 1], op, states[i]);
        PriorityCurrentIff(states, ops, i - 1);
        ReplaysAll(states[i - 1], Indexed(front), Disabled(front));
        StaleByReplay(states[i - 1], front, op);
      }
    }
  }

  lemma NothingStale()
    ensures !StaleSince([]) && LastClear([]) == 0
  {
  }

  lemma ClearedEmpty(s: IndexState, t: IndexState)
    requires Step(s, Clear, t)
    ensures t == EMPTY
  {
  }

  /** The subsequence of rules that belong to slot `v` of field `f`. */
  function Pinned(rules: seq<Rule>, f: string, v: string): seq<Rule> {
    if rules == [] then []
    else (if InSlot(rules[0], f, v) then [rules[0]] else []) + Pinned(rules[1..], f, v)
  }

  lemma {:induction false} FiledIsPinned(rules: seq<Rule>, f: string, v: string)
    requires forall x | x in rules :: NoRepeats(ItemPins(x.conditions, f))
    ensures Filed(rules, f, v) == Pinned(rules, f, v)
  {
    hide InSlot, FiledTimes, ItemPins, NoRepeats;
    if rules != [] {
      FiledIsPinned(rules[1..], f, v);
      FiledIffInSlot(rules[0], f, v);
      FiledTwiceIff(ItemPins(rules[0].conditions, f));
      assert Copies(rules[0], 1) == [rules[0]] && Copies(rules[0], 0) == [];
    }
  }

  lemma {:induction false} IndexedWasAdded(ops: seq<Op>, id: string)
    requires id in Indexed(ops)
    ensures exists k :: 0 <= k < |ops| && ops[k] == Add(Indexed(ops)[id])
  {
    var n := |ops| - 1;
    if !(ops[n].Add? && ops[n].rule.enabled && ops[n].rule.id == id) {
      IndexedWasAdded(ops[..n], id);
      var k :| 0 <= k < n && ops[..n][k] == Add(Indexed(ops[..n])[id]);
      assert ops[k] == Add(Indexed(ops)[id]);
    }
  }

  /** In a run whose rules pin no value twice nothing is ever stale. */
  lemma OncePinnedNotStale(ops: seq<Op>)
    requires forall k | 0 <= k < |ops| && ops[k].Add? :: PinsOnce(ops[k].rule)
    ensures !StaleSince(ops) && forall x | x in Indexed(ops).Values :: PinsOnce(x)
  {
    hide Indexed, PinsOnce;
    forall n, id | 0 <= n <= |ops| && id in Indexed(ops[..n])
      ensures PinsOnce(Indexed(ops[..n])[id])
    {
      IndexedWasAdded(ops[..n], id);
      var k :| 0 <= k < n && ops[..n][k] == Add(Indexed(ops[..n])[id]);
      assert ops[k] == Add(Indexed(ops[..n])[id]);
    }
    assert ops[..|ops|] == ops;
  }

  /** So over every such run each slot is exactly the subsequence of the rules that pin its value. */
  lemma SlotsAreSubsequences(states: seq<IndexState>, ops: seq<Op>, i: nat, v: string)
    requires IsRun(states, ops) && i < |states|
    requires forall k | 0 <= k < |ops| && ops[k].Add? :: PinsOnce(ops[k].rule)
    ensures
      var s := states[i];
      && Inv(s)
      && Get(s.device, v) == Pinned(s.all, "device_id", v)
      && Get(s.key, v) == Pinned(s.all, "key", v)
      && Get(s.types, v) == Pinned(s.all, "type", v)
  {
    hide Step, Get, Filed, Pinned, StaleSince, Indexed, Disabled, DistinctIds, PriorityOrder, ItemPins, NoRepeats;
    var s := states[i];
    OncePinnedNotStale(ops[..i]);
    RunInv(states, ops, i);
    PriorityCurrentIff(states, ops, i);
    assert Inv(states[i]);
    forall x | x in s.all
      ensures PinsOnce(x)
    {
      assert Indexed(ops[..i])[x.id] in Indexed(ops[..i]).Values;
    }
    FiledIsPinned(s.all, "device_id", v);
    FiledIsPinned(s.all, "key", v);
    FiledIsPinned(s.all, "type", v);
  }

  // ----- Adding and removing a rule again -----

  lemma {:induction false} RemoveCopy(rules: seq<Rule>, rule: Rule, n: nat)
    requires !HasId(rules, rule.id)
    ensures RemoveFirst(rules + Copies(rule, n), rule.id) == rules + Copies(rule, if n == 0 then 0 else n - 1)
  {
    if rules == [] {
      assert [] + Copies(rule, n) == Copies(rule, n);
      if n > 0 {
        assert Copies(rule, n)[1..] == Copies(rule, n - 1);
      }
    } else {
      assert rules[0].id != rule.id;
      assert (rules + Copies(rule, n))[1..] == rules[1..] + Copies(rule, n);
      NoIdTail(rules, rule.id);
      RemoveCopy(rules[1..], rule, n);
      assert rules == [rules[0]] + rules[1..];
    }
  }

  /** Filing a rule and purging it again restores every slot exactly when it pins no value twice;
      otherwise a stale copy stays behind. */
  lemma FileThenPurge(slots: Slots, rule: Rule, pins: seq<string>)
    requires forall v | v in slots :: !HasId(slots[v], rule.id)
    ensures (forall v :: Get(Purge(FileRule(slots, rule, pins), rule.id), v) == Get(slots, v)) <==> NoRepeats(pins)
  {
    hide FileRule, Purge, RemoveFirst, Count;
    forall v: string
      ensures Get(Purge(FileRule(slots, rule, pins), rule.id), v)
           == Get(slots, v) + Copies(rule, if FiledTimes(pins, v) == 0 then 0 else FiledTimes(pins, v) - 1)
    {
      PurgeGet(FileRule(slots, rule, pins), rule.id, v);
      FileRuleGet(slots, rule, pins, v);
      RemoveCopy(Get(slots, v), rule, FiledTimes(pins, v));
    }
    FiledTwiceIff(pins);
    if v :| FiledTimes(pins, v) > 1 {
      assert |Get(Purge(FileRule(slots, rule, pins), rule.id), v)| > |Get(slots, v)|;
    }
  }

  lemma SameSlots(a: Slots, b: Slots)
    requires NoEmptySlot(a) && NoEmptySlot(b)
    requires forall v :: Get(a, v) == Get(b, v)
    ensures a == b
  {
    forall v: string
      ensures v in a <==> v in b
      ensures v in a ==> a[v] == b[v]
    {
      assert Get(a, v) == Get(b, v);
    }
  }

  lemma FieldRestored(slots: Slots, rules: seq<Rule>, rule: Rule, f: string)
    requires SlotsOk(slots, rules, f) && !HasId(rules, rule.id)
    ensures Purge(FileRule(slots, rule, ItemPins(rule.conditions, f)), rule.id) == slots
       <==> NoRepeats(ItemPins(rule.conditions, f))
  {
    hide Filed, ItemPins, AppendEach, Purge, NoRepeats;
    var pins := ItemPins(rule.conditions, f);
    forall v | v in slots
      ensures !HasId(slots[v], rule.id)
    {
      FiledHasId(rules, f, v, rule.id);
      assert Get(slots, v) == slots[v];
    }
    FileThenPurge(slots, rule, pins);
    AppendEachNonEmpty(slots, rule, pins);
    PurgeNonEmpty(FileRule(slots, rule, pins), rule.id);
    if NoRepeats(pins) {
      SameSlots(Purge(FileRule(slots, rule, pins), rule.id), slots);
    }
  }

  /** Inserting a new rule and removing it again gives back the index exactly when the rule pins no value
      twice in any of the three fields. */
  lemma AddThenRemove(s: IndexState, rule: Rule)
    requires Consistent(s) && !HasId(s.all, rule.id)
    ensures RemoveId(Insert(s, rule), rule.id) == s <==> PinsOnce(rule)
  {
    hide SlotsOk, Purge, FileRule, ItemPins, RemoveFirst, NoRepeats, DistinctIds;
    FieldRestored(s.device, s.all, rule, "device_id");
    FieldRestored(s.key, s.all, rule, "key");
    FieldRestored(s.types, s.all, rule, "type");
    RemoveCopy(s.all, rule, 1);
    assert Copies(rule, 1) == [rule] && s.all + Copies(rule, 0) == s.all;
  }

  lemma {:induction false} CountTwo(pins: seq<string>, i: nat, j: nat)
    requires i < j < |pins| && pins[i] == pins[j]
    ensures Count(pins, pins[i]) >= 2
  {
    var n := |pins| - 1;
    if j < n {
      CountTwo(pins[..n], i, j);
    } else {
      CountFacts(pins[..n], pins[i]);
      assert pins[..n][i] in pins[..n];
    }
  }
}
