/** The index object: its maps and lists are updated in place by the operations specified in RuleIndex. */
module Indexing {
  import opened Conditions
  import opened RuleIndex

  /** The pins collected so far, by field; a field is present once something was collected for it. */
  type Fields = map<string, seq<string>>

  function PinsIn(fields: Fields, f: string): seq<string> {
    if f in fields then fields[f] else []
  }

  ghost predicate NonEmpty(fields: Fields) {
    forall f | f in fields :: fields[f] != []
  }

  /** Walks a condition and appends every equality value to the shared map, in traversal order. */
  method ExtractFields(c: Condition, before: Fields) returns (after: Fields)
    requires NonEmpty(before)
    ensures NonEmpty(after) && forall f: string :: PinsIn(after, f) == PinsIn(before, f) + Pins(c, f)
    decreases c, 1
  {
    hide Pins, PinsOf, PinsIn, OwnPin, NonEmpty;
    var own := ExtractOwn(c, before);
    var conj := own;
    if c.conj.Clause? {
      conj := ExtractItems(c.conj.items, own);
    }
    var disj := conj;
    if c.disj.Clause? {
      disj := ExtractItems(c.disj.items, conj);
    }
    after := disj;
    if c.neg.Sub? {
      after := ExtractFields(c.neg.cond, disj);
    }
    forall f: string
      ensures PinsIn(after, f) == PinsIn(before, f) + Pins(c, f)
    {
      PinsParts(c, f);
    }
  }

  lemma PinsParts(c: Condition, f: string)
    ensures Pins(c, f) == OwnPin(c, f) + (if c.conj.Clause? then PinsOf(c.conj.items, f) else [])
         + (if c.disj.Clause? then PinsOf(c.disj.items, f) else []) + (if c.neg.Sub? then Pins(c.neg.cond, f) else [])
  {
  }

  method ExtractOwn(c: Condition, before: Fields) returns (after: Fields)
    requires NonEmpty(before)
    ensures NonEmpty(after) && forall f: string :: PinsIn(after, f) == PinsIn(before, f) + OwnPin(c, f)
  {
    after := before;
    if c.field != "" && c.operator == "eq" && c.value.Str? {
      after := after[c.field := PinsIn(after, c.field) + [c.value.s]];
    }
  }

  method ExtractItems(items: Items, before: Fields) returns (after: Fields)
    requires NonEmpty(before)
    ensures NonEmpty(after) && forall f: string :: PinsIn(after, f) == PinsIn(before, f) + PinsOf(items, f)
    decreases items, 0
  {
    hide Pins, PinsOf, PinsIn, NonEmpty;
    var middle := before;
    after := before;
    if items.More? {
      if items.first.Sub? {
        middle := ExtractFields(items.first.cond, before);
      }
      after := ExtractItems(items.rest, middle);
    }
    forall f: string
      ensures PinsIn(after, f) == PinsIn(before, f) + PinsOf(items, f)
    {
      PinsOfParts(items, f);
    }
  }

  lemma PinsOfParts(items: Items, f: string)
    ensures PinsOf(items, f) == if items.End? then []
            else (if items.first.Sub? then Pins(items.first.cond, f) else []) + PinsOf(items.rest, f)
  {
  }

  /** Finds the first rule with the ID and splices it out. */
  method RemoveById(rules: seq<Rule>, id: string) returns (r: seq<Rule>)
    ensures r == RemoveFirst(rules, id)
  {
    for i := 0 to |rules|
      invariant RemoveFirst(rules, id) == rules[..i] + RemoveFirst(rules[i..], id)
    {
      assert rules[i..][1..] == rules[i + 1..];
      if rules[i].id == id {
        return rules[..i] + rules[i + 1..];
      }
      assert rules[..i + 1] == rules[..i] + [rules[i]];
    }
    r := rules;
  }

  /** Visits every slot in any order, splices the rule out, and deletes slots emptied thereby. */
  method PurgeSlots(slots: Slots, id: string) returns (r: Slots)
    ensures r == Purge(slots, id)
  {
    hide RemoveFirst;
    r := slots;
    var todo := slots.Keys;
    while todo != {}
      invariant todo <= slots.Keys && r.Keys <= slots.Keys
      invariant forall v | v in todo :: v in r && r[v] == slots[v]
      invariant forall v | v in slots && v !in todo ::
        && (v in r <==> (HasId(slots[v], id) ==> RemoveFirst(slots[v], id) != []))
        && (v in r ==> r[v] == RemoveFirst(slots[v], id))
      decreases todo
    {
      var v :| v in todo;
      var present := false;
      for i := 0 to |slots[v]|
        invariant present <==> exists k :: 0 <= k < i && slots[v][k].id == id
      {
        if slots[v][i].id == id {
          present := true;
        }
      }
      if present {
        var rest := RemoveById(slots[v], id);
        if rest == [] {
          r := r - {v};
        } else {
          r := r[v := rest];
        }
      } else {
        RemoveAbsent(slots[v], id);
      }
      todo := todo - {v};
    }
  }

  /** Files a rule under its pins of one field, or under the wildcard when the field was not collected. */
  method FileUnder(slots: Slots, rule: Rule, fields: Fields, f: string) returns (r: Slots)
    requires PinsIn(fields, f) == ItemPins(rule.conditions, f) && (f in fields ==> fields[f] != [])
    ensures r == FileRule(slots, rule, ItemPins(rule.conditions, f))
  {
    if f !in fields {
      return slots["*" := Get(slots, "*") + [rule]];
    }
    var pins := fields[f];
    r := slots;
    for i := 0 to |pins|
      invariant r == AppendEach(slots, rule, pins[..i])
    {
      assert pins[..i + 1][..i] == pins[..i];
      if pins[i] == "*" || pins[i] == "" {
        continue;
      }
      r := r[pins[i] := Get(r, pins[i]) + [rule]];
    }
    assert pins[..|pins|] == pins;
  }

  /** Some priority ordering of the rules. */
  method SortByPriority(rules: seq<Rule>) returns (r: seq<Rule>)
    ensures PriorityOrder(r, rules)
  {
    r := [];
    for i := 0 to |rules|
      invariant PriorityOrder(r, rules[..i])
    {
      assert rules[..i + 1] == rules[..i] + [rules[i]];
      r := InsertByPriority(r, rules[i]);
    }
    assert rules[..|rules|] == rules;
  }

  // ----- Candidates -----

  function Collect(found: map<string, Rule>, rules: seq<Rule>): map<string, Rule> {
    if rules == [] then found
    else Collect(found, rules[..|rules| - 1])[rules[|rules| - 1].id := rules[|rules| - 1]]
  }

  lemma {:induction false} CollectConcat(found: map<string, Rule>, a: seq<Rule>, b: seq<Rule>)
    ensures Collect(Collect(found, a), b) == Collect(found, a + b)
  {
    if b == [] {
      assert a + b == a;
    } else {
      CollectConcat(found, a, b[..|b| - 1]);
      assert (a + b)[..|a + b| - 1] == a + b[..|b| - 1];
    }
  }

  /** Later rules displace earlier ones with the same ID. */
  lemma {:induction false} CollectFacts(rules: seq<Rule>)
    ensures forall id | id in Collect(map[], rules) ::
      Collect(map[], rules)[id].id == id && LastOf(rules, Collect(map[], rules)[id])
    ensures forall x | x in rules :: x.id in Collect(map[], rules)
  {
    if rules != [] {
      var front, x := rules[..|rules| - 1], rules[|rules| - 1];
      CollectFacts(front);
      assert forall y :: y in rules <==> y in front || y == x;
      forall id | id in Collect(map[], rules)
        ensures Collect(map[], rules)[id].id == id && LastOf(rules, Collect(map[], rules)[id])
      {
        LastOfLonger(front, x, Collect(map[], rules)[id]);
        assert rules == front + [x];
      }
    }
  }

  lemma LastOfLonger(front: seq<Rule>, x: Rule, y: Rule)
    ensures y == x || (y.id != x.id && LastOf(front, y)) ==> LastOf(front + [x], y)
  {
    var all := front + [x];
    if y == x {
      assert all[|front|] == y;
    } else if y.id != x.id && LastOf(front, y) {
      var i :| 0 <= i < |front| && front[i] == y && forall j | i < j < |front| :: front[j].id != y.id;
      assert all[i] == y;
    }
  }

  method CollectInto(found: map<string, Rule>, slots: Slots, v: string) returns (r: map<string, Rule>)
    ensures r == Collect(found, Get(slots, v))
  {
    r := found;
    if v in slots {
      var rules := slots[v];
      for i := 0 to |rules|
        invariant r == Collect(found, rules[..i])
      {
        assert rules[..i + 1][..i] == rules[..i];
        r := r[rules[i].id := rules[i]];
      }
      assert rules[..|rules|] == rules;
    }
  }

  /** The values of the candidate map, in any order. */
  method ListCandidates(found: map<string, Rule>) returns (r: seq<Rule>)
    requires forall id | id in found :: found[id].id == id
    ensures DistinctIds(r) && forall x :: x in r <==> x.id in found && found[x.id] == x
  {
    r := [];
    var todo := found.Keys;
    while todo != {}
      invariant todo <= found.Keys && DistinctIds(r)
      invariant forall x :: x in r <==> x.id in found && x.id !in todo && found[x.id] == x
      decreases todo
    {
      var id :| id in todo;
      assert forall i | 0 <= i < |r| :: r[i] in r && r[i].id != id;
      r := r + [found[id]];
      todo := todo - {id};
    }
  }

  lemma ReorderKeeps(r: seq<Rule>, rules: seq<Rule>)
    requires PriorityOrder(r, rules) && DistinctIds(rules)
    ensures DistinctIds(r) && forall x :: x in r <==> x in rules
  {
    forall x
      ensures x in r <==> x in rules
    {
      assert x in r <==> x in multiset(r);
      assert x in rules <==> x in multiset(rules);
    }
    forall i, j | 0 <= i < j < |r|
      ensures r[i].id != r[j].id
    {
      if r[i].id == r[j].id {
        assert r[i] in rules && r[j] in rules;
        SameIdSameRule(rules, r[i], r[j]);
        TwiceIn(r, i, j);
        OnceIn(rules, r[i]);
      }
    }
  }

  lemma TwiceIn(r: seq<Rule>, i: nat, j: nat)
    requires i < j < |r| && r[i] == r[j]
    ensures multiset(r)[r[i]] >= 2
  {
    assert r == r[..i] + [r[i]] + r[i + 1..j] + [r[j]] + r[j + 1..];
  }

  lemma {:induction false} OnceIn(rules: seq<Rule>, x: Rule)
    requires DistinctIds(rules)
    ensures multiset(rules)[x] <= 1
  {
    if rules != [] {
      assert rules == [rules[0]] + rules[1..];
      OnceIn(rules[1..], x);
      if x == rules[0] {
        assert forall i | 0 <= i < |rules[1..]| :: rules[1..][i] == rules[i + 1] && rules[i + 1].id != x.id;
        assert x !in rules[1..];
        assert x !in multiset(rules[1..]);
      }
    }
  }

  class Index {
    var deviceIndex: Slots
    var keyIndex: Slots
    var typeIndex: Slots
    var priorityIndex: seq<Rule>
    var allRules: seq<Rule>

    function State(): IndexState
      reads this
    {
      IndexState(deviceIndex, keyIndex, typeIndex, allRules, priorityIndex)
    }

    constructor ()
      ensures State() == EMPTY
    {
      deviceIndex, keyIndex, typeIndex, priorityIndex, allRules := map[], map[], map[], [], [];
    }

    method AddRule(rule: Rule)
      modifies this
      ensures Step(old(State()), Add(rule), State())
    {
      hide Purge, FileRule, RemoveFirst;
      RemoveRuleFromIndex(rule.id);
      if !rule.enabled {
        return;
      }
      allRules := allRules + [rule];
      AnalyzeAndIndex(rule);
      priorityIndex := SortByPriority(allRules);
    }

    method RemoveRule(rule: Rule)
      modifies this
      ensures Step(old(State()), Remove(rule), State())
    {
      hide Purge, RemoveFirst;
      RemoveRuleFromIndex(rule.id);
      priorityIndex := SortByPriority(allRules);
    }

    method Clear()
      modifies this
      ensures Step(old(State()), Op.Clear, State())
    {
      deviceIndex, keyIndex, typeIndex, priorityIndex, allRules := map[], map[], map[], [], [];
    }

    method RemoveRuleFromIndex(id: string)
      modifies this
      ensures State() == RemoveId(old(State()), id)
    {
      hide Purge, RemoveFirst;
      allRules := RemoveById(allRules, id);
      deviceIndex := PurgeSlots(deviceIndex, id);
      keyIndex := PurgeSlots(keyIndex, id);
      typeIndex := PurgeSlots(typeIndex, id);
    }

    method AnalyzeAndIndex(rule: Rule)
      modifies this`deviceIndex, this`keyIndex, this`typeIndex
      ensures deviceIndex == FileRule(old(deviceIndex), rule, ItemPins(rule.conditions, "device_id"))
      ensures keyIndex == FileRule(old(keyIndex), rule, ItemPins(rule.conditions, "key"))
      ensures typeIndex == FileRule(old(typeIndex), rule, ItemPins(rule.conditions, "type"))
    {
      hide FileRule, Pins;
      var fields: Fields := map[];
      if rule.conditions.Sub? {
        fields := ExtractFields(rule.conditions.cond, fields);
      }
      assert forall f: string :: PinsIn(fields, f) == ItemPins(rule.conditions, f);
      deviceIndex := FileUnder(deviceIndex, rule, fields, "device_id");
      keyIndex := FileUnder(keyIndex, rule, fields, "key");
      typeIndex := FileUnder(typeIndex, rule, fields, "type");
    }

    /** The candidate rules for a point. */
    method Match(point: Point) returns (r: seq<Rule>)
      ensures MatchResult(State(), point, r)
    {
      hide Collect, Get;
      var found := CollectInto(map[], deviceIndex, point.device);
      found := CollectInto(found, deviceIndex, "*");
      found := CollectInto(found, keyIndex, point.key);
      found := CollectInto(found, keyIndex, "*");
      found := CollectInto(found, typeIndex, point.dataType);
      found := CollectInto(found, typeIndex, "*");
      assert found == Collect(map[], Hits(State(), point)) by {
        SixSlots(State(), point);
      }
      ghost var hits := Hits(State(), point);
      hide Hits;
      CollectFacts(hits);
      FoundNothing(hits);
      if |found| == 0 {
        return priorityIndex;
      }
      var candidates := ListCandidates(found);
      r := SortByPriority(candidates);
      ReorderKeeps(r, candidates);
      forall h | h in hits
        ensures HasId(r, h.id)
      {
        var x := found[h.id];
        assert x in candidates && x in r;
        var i :| 0 <= i < |r| && r[i] == x;
      }
    }
  }

  lemma FoundNothing(hits: seq<Rule>)
    ensures |Collect(map[], hits)| == 0 <==> hits == []
  {
    if hits != [] {
      CollectFacts(hits);
      assert hits[0].id in Collect(map[], hits);
    }
  }

  lemma SixSlots(s: IndexState, p: Point)
    ensures Collect(map[], Hits(s, p))
         == Collect(Collect(Collect(Collect(Collect(Collect(map[], Get(s.device, p.device)), Get(s.device, "*")),
                    Get(s.key, p.key)), Get(s.key, "*")), Get(s.types, p.dataType)), Get(s.types, "*"))
  {
    hide Collect, Get;
    var a, b, c, d, e, g := Get(s.device, p.device), Get(s.device, "*"), Get(s.key, p.key), Get(s.key, "*"),
                            Get(s.types, p.dataType), Get(s.types, "*");
    CollectConcat(map[], a, b);
    CollectConcat(map[], a + b, c);
    CollectConcat(map[], a + b + c, d);
    CollectConcat(map[], a + b + c + d, e);
    CollectConcat(map[], a + b + c + d + e, g);
  }
}
