/** Rule conditions and their evaluation on a data point. Number parsing, regular expressions, the
    expression engine and fields other than device_id, key and type are taken from an environment, so
    everything stated here holds for every behaviour of that foreign code. */
module Conditions {
  import opened Options
  import opened Numbers

  /** A dynamically typed value; `Opaque` covers types the comparison does not know. */
  datatype Value = Nil | Num(n: Number) | Str(s: string) | Bool(b: bool) | Opaque(tag: int)

  /** A data point; `payload` identifies everything besides the three indexed fields. */
  datatype Point = Point(device: string, key: string, dataType: string, payload: int)

  datatype Outcome = Yes | No | Error

  datatype Env = Env(parseFloat: string -> Option<Number>,
                     otherField: (string, Point) -> Option<Value>,
                     regexCompiles: string -> bool,
                     regexMatches: (string, string) -> bool,
                     evalExpression: (string, Point) -> Outcome)

  /** A nullable list of conditions: an empty list is not the same as an absent one. */
  datatype Clause = NoClause | Clause(items: Items)

  datatype Items = End | More(first: Item, rest: Items)

  /** A nullable reference to a condition. */
  datatype Item = NilItem | Sub(cond: Condition)

  datatype Condition = Condition(kind: string, field: string, operator: string, value: Value, expression: string,
                                 conj: Clause, disj: Clause, neg: Item)

  // ----- Comparison -----

  function ToNumber(env: Env, v: Value): Option<Number> {
    match v
    case Num(n) => Some(n)
    case Str(s) => env.parseFloat(s)
    case _ => None
  }

  /** Byte order of strings. */
  predicate Less(a: string, b: string) {
    if b == "" then false
    else if a == "" then true
    else a[0] < b[0] || (a[0] == b[0] && Less(a[1..], b[1..]))
  }

  function CompareNumbers(a: Number, b: Number): int {
    if a.NaN? || b.NaN? then -2
    else if a.PosInf? then (if b.PosInf? then 0 else 1)
    else if a.NegInf? then (if b.NegInf? then 0 else -1)
    else if b.PosInf? then -1
    else if b.NegInf? then 1
    else if a.r < b.r then -1 else if a.r > b.r then 1 else 0
  }

  /** -1, 0, 1, or -2 when NaN takes part; values that cannot be compared count as equal. */
  function CompareValues(env: Env, a: Value, b: Value): int {
    if a.Nil? && b.Nil? then 0
    else if a.Nil? then -1
    else if b.Nil? then 1
    else if ToNumber(env, a).Some? && ToNumber(env, b).Some? then
      CompareNumbers(ToNumber(env, a).value, ToNumber(env, b).value)
    else
      match (a, b)
      case (Str(x), Str(y)) => if Less(x, y) then -1 else if Less(y, x) then 1 else 0
      case (Bool(x), Bool(y)) => if !x && y then -1 else if x && !y then 1 else 0
      case _ => 0
  }

  lemma {:induction false} LessTotal(a: string, b: string)
    ensures a == b || Less(a, b) || Less(b, a)
    ensures !Less(a, a)
  {
    if a != "" && b != "" {
      LessTotal(a[1..], b[1..]);
      assert a == [a[0]] + a[1..] && b == [b[0]] + b[1..];
    } else if a != "" {
      LessTotal(a[1..], "");
    }
  }

  /** Two strings compare as equal exactly when they are the same, or both are numerals of equal value. */
  lemma EqualStrings(env: Env, a: string, b: string)
    ensures CompareValues(env, Str(a), Str(b)) == 0 <==>
      if env.parseFloat(a).Some? && env.parseFloat(b).Some?
      then CompareNumbers(env.parseFloat(a).value, env.parseFloat(b).value) == 0
      else a == b
  {
    LessTotal(a, b);
    if a != b {
      assert Less(a, b) || Less(b, a);
    }
  }

  lemma {:induction false} LessAsymmetric(a: string, b: string)
    ensures !(Less(a, b) && Less(b, a))
  {
    if a != "" && b != "" {
      LessAsymmetric(a[1..], b[1..]);
    }
  }

  /** Swapping the operands negates the comparison; NaN stays incomparable both ways. */
  lemma CompareAntisymmetric(env: Env, a: Value, b: Value)
    ensures CompareValues(env, b, a) == if CompareValues(env, a, b) == -2 then -2 else -CompareValues(env, a, b)
  {
    if a.Str? && b.Str? {
      LessAsymmetric(a.s, b.s);
    }
  }

  // ----- Operators -----

  predicate Contains(s: string, sub: string) {
    sub <= s || (s != "" && Contains(s[1..], sub))
  }

  predicate IsOperator(op: string) {
    op in {"eq", "ne", "gt", "gte", "lt", "lte", "contains", "startswith", "endswith", "regex"}
  }

  predicate IsStringOperator(op: string) {
    op in {"contains", "startswith", "endswith", "regex"}
  }

  predicate Apply(env: Env, op: string, a: Value, b: Value) {
    var cmp := CompareValues(env, a, b);
    if op == "eq" then cmp == 0
    else if op == "ne" then cmp != 0
    else if op == "gt" then cmp > 0
    else if op == "gte" then cmp >= 0
    else if op == "lt" then cmp != -2 && cmp < 0
    else if op == "lte" then cmp != -2 && cmp <= 0
    else if !a.Str? || !b.Str? then false
    else if op == "contains" then Contains(a.s, b.s)
    else if op == "startswith" then b.s <= a.s
    else if op == "endswith" then |b.s| <= |a.s| && a.s[|a.s| - |b.s|..] == b.s
    else op == "regex" && env.regexMatches(b.s, a.s)
  }

  /** Exactly one of lt, eq and gt holds unless NaN takes part, when none does; ne is the negation of eq,
      and mirrored operators agree. */
  lemma OrderingLaws(env: Env, a: Value, b: Value)
    ensures Apply(env, "ne", a, b) <==> !Apply(env, "eq", a, b)
    ensures Apply(env, "lt", a, b) <==> Apply(env, "gt", b, a)
    ensures Apply(env, "lte", a, b) <==> Apply(env, "gte", b, a)
    ensures Apply(env, "lte", a, b) <==> Apply(env, "lt", a, b) || Apply(env, "eq", a, b)
    ensures CompareValues(env, a, b) != -2 ==>
      (Apply(env, "lt", a, b) || Apply(env, "eq", a, b) || Apply(env, "gt", a, b))
    ensures !(Apply(env, "lt", a, b) && Apply(env, "gt", a, b)) && !(Apply(env, "lt", a, b) && Apply(env, "eq", a, b))
    ensures CompareValues(env, a, b) == -2 ==> !Apply(env, "lte", a, b) && !Apply(env, "gte", a, b)
  {
    hide CompareValues;
    CompareAntisymmetric(env, a, b);
  }

  /** Finite numbers compare as the reals they are. */
  lemma NumbersCompare(env: Env, x: real, y: real)
    ensures Apply(env, "gt", Num(Finite(x)), Num(Finite(y))) <==> x > y
    ensures Apply(env, "gte", Num(Finite(x)), Num(Finite(y))) <==> x >= y
    ensures Apply(env, "lt", Num(Finite(x)), Num(Finite(y))) <==> x < y
    ensures Apply(env, "lte", Num(Finite(x)), Num(Finite(y))) <==> x <= y
    ensures Apply(env, "eq", Num(Finite(x)), Num(Finite(y))) <==> x == y
    ensures Apply(env, "ne", Num(Finite(x)), Num(Finite(y))) <==> x != y
  {
  }

  /** The infinities lie above and below everything else and equal themselves; NaN differs from everything,
      itself included, and is in no order with anything. */
  lemma SpecialsCompare(env: Env, n: Number)
    ensures Apply(env, "gt", Num(PosInf), Num(n)) <==> n.Finite? || n.NegInf?
    ensures Apply(env, "lt", Num(NegInf), Num(n)) <==> n.Finite? || n.PosInf?
    ensures !Apply(env, "lt", Num(PosInf), Num(n)) && !Apply(env, "gt", Num(NegInf), Num(n))
    ensures Apply(env, "eq", Num(PosInf), Num(n)) <==> n.PosInf?
    ensures Apply(env, "eq", Num(NegInf), Num(n)) <==> n.NegInf?
    ensures Apply(env, "ne", Num(NaN), Num(n)) && Apply(env, "ne", Num(n), Num(NaN))
    ensures !Apply(env, "gte", Num(NaN), Num(n)) && !Apply(env, "lte", Num(NaN), Num(n))
    ensures !Apply(env, "gte", Num(n), Num(NaN)) && !Apply(env, "lte", Num(n), Num(NaN))
  {
  }

  /** `a` comes before `b` in a dictionary: it is a proper prefix, or smaller at the first difference. */
  ghost predicate Precedes(a: string, b: string) {
    exists k: nat :: DiffersAt(a, b, k)
  }

  ghost predicate DiffersAt(a: string, b: string, k: nat) {
    k <= |a| && k < |b| && a[..k] == b[..k] && (k < |a| ==> a[k] < b[k])
  }

  lemma {:induction false} LessIsPrecedes(a: string, b: string)
    ensures Less(a, b) <==> Precedes(a, b)
  {
    if a == "" || b == "" {
      assert b != "" ==> DiffersAt(a, b, 0);
    } else {
      LessIsPrecedes(a[1..], b[1..]);
      if a[0] == b[0] && Precedes(a[1..], b[1..]) {
        var k: nat :| DiffersAt(a[1..], b[1..], k);
        assert a[..k + 1] == [a[0]] + a[1..][..k] && b[..k + 1] == [b[0]] + b[1..][..k];
        assert DiffersAt(a, b, k + 1);
      } else if a[0] < b[0] {
        assert DiffersAt(a, b, 0);
      }
      if Precedes(a, b) {
        var k: nat :| DiffersAt(a, b, k);
        if k > 0 {
          assert a[..k][0] == b[..k][0];
          assert a[1..][..k - 1] == a[..k][1..] && b[1..][..k - 1] == b[..k][1..];
          assert DiffersAt(a[1..], b[1..], k - 1);
        }
      }
    }
  }

  /** Strings that are not both numerals compare in dictionary order, numerals by value. */
  lemma StringsCompare(env: Env, a: string, b: string)
    ensures Apply(env, "lt", Str(a), Str(b)) <==>
      if env.parseFloat(a).Some? && env.parseFloat(b).Some?
      then Apply(env, "lt", Num(env.parseFloat(a).value), Num(env.parseFloat(b).value))
      else Precedes(a, b)
    ensures env.parseFloat(a).Some? ==>
      forall n :: Apply(env, "lt", Str(a), Num(n)) <==> Apply(env, "lt", Num(env.parseFloat(a).value), Num(n))
  {
    hide Precedes, CompareNumbers;
    LessIsPrecedes(a, b);
  }

  /** false < true; an absent value is below every other; values of kinds that cannot be compared are equal. */
  lemma OthersCompare(env: Env, x: bool, y: bool, v: Value, s: string)
    ensures Apply(env, "lt", Bool(x), Bool(y)) <==> !x && y
    ensures Apply(env, "lt", Nil, v) <==> v != Nil
    ensures Apply(env, "eq", Nil, v) <==> v == Nil
    ensures Apply(env, "eq", Bool(x), Str(s)) && (v.Opaque? || v.Bool? ==> Apply(env, "eq", v, Str(s)))
    ensures v.Opaque? ==> Apply(env, "eq", v, Bool(x)) && forall n :: Apply(env, "eq", v, Num(n))
  {
  }

  lemma {:induction false} ContainsMeaning(a: string, b: string)
    ensures Contains(a, b) <==> exists x, y :: a == x + b + y
  {
    if b <= a {
      assert a == "" + b + a[|b|..];
    } else if a != "" {
      ContainsMeaning(a[1..], b);
      if Contains(a[1..], b) {
        var x, y :| a[1..] == x + b + y;
        assert a == ([a[0]] + x) + b + y;
      }
      if x, y :| a == x + b + y {
        assert x != "";
        assert a[1..] == x[1..] + b + y;
      }
    }
  }

  /** The string operators say that the operand occurs somewhere, at the beginning, or at the end. */
  lemma StringOperators(env: Env, a: string, b: string)
    ensures Apply(env, "contains", Str(a), Str(b)) <==> exists x, y :: a == x + b + y
    ensures Apply(env, "startswith", Str(a), Str(b)) <==> exists y :: a == b + y
    ensures Apply(env, "endswith", Str(a), Str(b)) <==> exists x :: a == x + b
  {
    hide CompareValues, Contains;
    ContainsMeaning(a, b);
    if b <= a {
      assert a == b + a[|b|..];
    }
    if |b| <= |a| && a[|a| - |b|..] == b {
      assert a == a[..|a| - |b|] + b;
    }
  }

  /** On anything but two strings they are false. */
  lemma StringOperatorsNeedStrings(env: Env, op: string, v: Value, w: Value)
    requires IsStringOperator(op) && (!v.Str? || !w.Str?)
    ensures !Apply(env, op, v, w)
  {
    hide CompareValues;
  }

  // ----- Evaluation -----

  predicate IsSpace(c: char) {
    || '\t' <= c <= '\r' || c == ' ' || c == '\U{85}' || c == '\U{A0}' || c == '\U{1680}'
    || '\U{2000}' <= c <= '\U{200A}' || c == '\U{2028}' || c == '\U{2029}' || c == '\U{202F}'
    || c == '\U{205F}' || c == '\U{3000}'
  }

  predicate IsBlank(s: string) {
    forall i | 0 <= i < |s| :: IsSpace(s[i])
  }

  /** The part of a field name before the first dot. */
  function Head(field: string): string {
    if field == "" || field[0] == '.' then "" else [field[0]] + Head(field[1..])
  }

  /** The field's value, if it can be resolved. The three indexed fields are strings and have no parts. */
  function FieldValue(env: Env, field: string, p: Point): Option<Value> {
    var head := Head(field);
    if head in {"device_id", "key", "type"} then
      if field != head then None
      else Some(Str(if head == "device_id" then p.device else if head == "key" then p.key else p.dataType))
    else env.otherField(field, p)
  }

  function EvaluateField(env: Env, c: Condition, p: Point): Outcome {
    if c.field == "" || IsBlank(c.field) then Error
    else
      var v := FieldValue(env, c.field, p);
      var op := if c.operator == "" then "eq" else c.operator;
      if v.None? || !IsOperator(op) then Error
      else if op == "regex" && (!c.value.Str? || IsBlank(c.value.s) || !env.regexCompiles(c.value.s)) then Error
      else if IsStringOperator(op) && !v.value.Str? then Error
      else if Apply(env, op, v.value, c.value) then Yes else No
  }

  function Evaluate(env: Env, c: Condition, p: Point): Outcome
    decreases c, 1
  {
    if c.conj.Clause? then EvaluateAll(env, c.conj.items, p)
    else if c.disj.Clause? then EvaluateAny(env, c.disj.items, p)
    else if c.neg.Sub? then
      match Evaluate(env, c.neg.cond, p)
      case Yes => No
      case No => Yes
      case Error => Error
    else if c.kind == "" || c.kind == "simple" then EvaluateField(env, c, p)
    else if c.kind == "expression" && 0 < |c.expression| <= 10000 then env.evalExpression(c.expression, p)
    else Error
  }

  /** AND: left to right, stopping at the first error or false. */
  function EvaluateAll(env: Env, items: Items, p: Point): Outcome
    decreases items, 0
  {
    if items.End? then Yes
    else if items.first.NilItem? then Error
    else
      match Evaluate(env, items.first.cond, p)
      case Yes => EvaluateAll(env, items.rest, p)
      case No => No
      case Error => Error
  }

  /** OR: left to right, stopping at the first error or true. */
  function EvaluateAny(env: Env, items: Items, p: Point): Outcome
    decreases items, 0
  {
    if items.End? then No
    else if items.first.NilItem? then Error
    else
      match Evaluate(env, items.first.cond, p)
      case Yes => Yes
      case No => EvaluateAny(env, items.rest, p)
      case Error => Error
  }

  predicate Among(x: Item, items: Items) {
    items.More? && (x == items.first || Among(x, items.rest))
  }

  /** The items come to a decision at one of them: all before it are present with outcome `pass`, and it is
      present with outcome `stop`. */
  predicate DecidedBy(env: Env, items: Items, p: Point, pass: Outcome, stop: Outcome) {
    && items.More? && items.first.Sub?
    && var o := Evaluate(env, items.first.cond, p);
       o == stop || (o == pass && DecidedBy(env, items.rest, p, pass, stop))
  }

  /** AND is false exactly when some condition is false and all before it hold; OR holds exactly when some
      condition holds and all before it are false. */
  lemma {:induction false} ClauseDecided(env: Env, items: Items, p: Point)
    ensures EvaluateAll(env, items, p) == No <==> DecidedBy(env, items, p, Yes, No)
    ensures EvaluateAny(env, items, p) == Yes <==> DecidedBy(env, items, p, No, Yes)
  {
    hide Evaluate;
    if items.More? {
      ClauseDecided(env, items.rest, p);
    }
  }

  /** AND goes before OR, OR before NOT, NOT before the condition's own kind; NOT exchanges true and false and
      keeps an error; an unknown kind is an error. */
  lemma EvaluationOrder(env: Env, c: Condition, p: Point)
    ensures c.conj.Clause? ==> Evaluate(env, c, p) == EvaluateAll(env, c.conj.items, p)
    ensures c.conj.NoClause? && c.disj.Clause? ==> Evaluate(env, c, p) == EvaluateAny(env, c.disj.items, p)
    ensures c.conj.NoClause? && c.disj.NoClause? && c.neg.Sub? ==>
      && (Evaluate(env, c, p) == Yes <==> Evaluate(env, c.neg.cond, p) == No)
      && (Evaluate(env, c, p) == Error <==> Evaluate(env, c.neg.cond, p) == Error)
    ensures c.conj.NoClause? && c.disj.NoClause? && c.neg.NilItem? && c.kind !in {"", "simple", "expression"} ==>
      Evaluate(env, c, p) == Error
  {
  }

  /** A leaf on a field that resolves to `v`: unknown operators and string operators on anything but a string
      are errors, no operator means equality, and otherwise it holds exactly when the operator does. */
  lemma LeafMeaning(env: Env, c: Condition, p: Point, v: Value)
    requires c.conj.NoClause? && c.disj.NoClause? && c.neg.NilItem? && c.kind in {"", "simple"}
    requires !IsBlank(c.field) && FieldValue(env, c.field, p) == Some(v)
    ensures c.operator in {"eq", "ne", "gt", "gte", "lt", "lte"} ==>
      Evaluate(env, c, p) == if Apply(env, c.operator, v, c.value) then Yes else No
    ensures c.operator == "" ==> Evaluate(env, c, p) == if Apply(env, "eq", v, c.value) then Yes else No
    ensures c.operator in {"contains", "startswith", "endswith"} ==>
      Evaluate(env, c, p) == if !v.Str? then Error else if Apply(env, c.operator, v, c.value) then Yes else No
    ensures c.operator == "regex" ==>
      Evaluate(env, c, p) ==
        if !v.Str? || !c.value.Str? || IsBlank(c.value.s) || !env.regexCompiles(c.value.s) then Error
        else if env.regexMatches(c.value.s, v.s) then Yes else No
    ensures c.operator !in {"", "eq", "ne", "gt", "gte", "lt", "lte", "contains", "startswith", "endswith", "regex"} ==>
      Evaluate(env, c, p) == Error
  {
    assert c.field != "";
    hide FieldValue, IsBlank, CompareValues, Contains;
  }

  /** A blank or unresolvable field is an error. */
  lemma LeafError(env: Env, c: Condition, p: Point)
    requires c.conj.NoClause? && c.disj.NoClause? && c.neg.NilItem? && c.kind in {"", "simple"}
    requires IsBlank(c.field) || FieldValue(env, c.field, p) == None
    ensures Evaluate(env, c, p) == Error
  {
    hide FieldValue, IsBlank;
  }

  /** The head of a field name is what comes before its first dot. */
  lemma {:induction false} HeadMeaning(field: string)
    ensures '.' !in Head(field) && (field == Head(field) || exists rest :: field == Head(field) + "." + rest)
  {
    if field != "" && field[0] != '.' {
      HeadMeaning(field[1..]);
      assert field == [field[0]] + field[1..];
      if rest :| field[1..] == Head(field[1..]) + "." + rest {
        assert field == Head(field) + "." + rest;
      }
    } else if field != "" {
      assert field == "" + "." + field[1..];
    }
  }

  /** The indexed fields have no parts: a dotted name that starts with one of them does not resolve. */
  lemma NoParts(env: Env, f: string, rest: string, p: Point)
    requires IndexedField(f)
    ensures FieldValue(env, f + "." + rest, p) == None
  {
    HeadOfDotted(f, rest);
  }

  lemma {:induction false} HeadOfDotted(f: string, rest: string)
    requires '.' !in f
    ensures Head(f + "." + rest) == f
  {
    var all := f + "." + rest;
    if f == "" {
      assert all[0] == '.';
    } else {
      assert all[1..] == f[1..] + "." + rest && all[0] == f[0];
      HeadOfDotted(f[1..], rest);
      assert f == [f[0]] + f[1..];
    }
  }

  /** AND holds exactly when every condition is present and holds; OR is false exactly when every
      condition is present and false. */
  lemma {:induction false} ClauseMeaning(env: Env, items: Items, p: Point)
    ensures EvaluateAll(env, items, p) == Yes <==>
      forall x | Among(x, items) :: x.Sub? && Evaluate(env, x.cond, p) == Yes
    ensures EvaluateAny(env, items, p) == No <==> forall x | Among(x, items) :: x.Sub? && Evaluate(env, x.cond, p) == No
    ensures EvaluateAny(env, items, p) == Yes ==>
      exists x :: Among(x, items) && x.Sub? && Evaluate(env, x.cond, p) == Yes
  {
    hide Evaluate;
    if items.More? {
      ClauseMeaning(env, items.rest, p);
      assert Among(items.first, items);
      assert forall x :: Among(x, items) <==> x == items.first || Among(x, items.rest);
    }
  }

  /** A rule without conditions fires on every point. */
  predicate Fires(env: Env, c: Item, p: Point) {
    c.Sub? ==> Evaluate(env, c.cond, p) == Yes
  }

  lemma UnconditionalFires(env: Env, p: Point)
    ensures Fires(env, NilItem, p)
  {
  }

  /** Expressions of one to ten thousand characters are handed to the engine; others are errors. */
  lemma ExpressionMeaning(env: Env, c: Condition, p: Point)
    requires c.conj.NoClause? && c.disj.NoClause? && c.neg.NilItem? && c.kind == "expression"
    ensures |c.expression| == 0 || |c.expression| >= 10001 ==> Evaluate(env, c, p) == Error
    ensures 1 <= |c.expression| <= 10000 ==> Evaluate(env, c, p) == env.evalExpression(c.expression, p)
  {
  }

  /** Blanks, tabs, line ends and the like make a name blank; any other character does not. */
  lemma BlankNames(s: string, c: char)
    ensures IsBlank("") && IsBlank(" ") && IsBlank("\t\n\r ")
    ensures c in s && 'a' <= c <= 'z' ==> !IsBlank(s)
  {
    if c in s && 'a' <= c <= 'z' {
      var i :| 0 <= i < |s| && s[i] == c;
      assert !IsSpace(s[i]);
    }
  }

  // ----- Values a condition compares fields with -----

  /** The string a leaf compares field `f` with, if it is an explicit equality. */
  function OwnPin(c: Condition, f: string): seq<string> {
    if c.field == f && f != "" && c.operator == "eq" && c.value.Str? then [c.value.s] else []
  }

  /** All strings that equality leaves anywhere in the condition compare field `f` with. */
  function Pins(c: Condition, f: string): seq<string>
    decreases c, 1
  {
    OwnPin(c, f)
    + (if c.conj.Clause? then PinsOf(c.conj.items, f) else [])
    + (if c.disj.Clause? then PinsOf(c.disj.items, f) else [])
    + (if c.neg.Sub? then Pins(c.neg.cond, f) else [])
  }

  function PinsOf(items: Items, f: string): seq<string>
    decreases items, 0
  {
    if items.End? then []
    else (if items.first.Sub? then Pins(items.first.cond, f) else []) + PinsOf(items.rest, f)
  }

  function ItemPins(c: Item, f: string): seq<string> {
    if c.Sub? then Pins(c.cond, f) else []
  }

  /** Built only from AND nodes and leaves: no OR, no NOT, and an equality only where it is evaluated. */
  predicate Conjunctive(c: Condition)
    decreases c, 1
  {
    && c.disj.NoClause? && c.neg.NilItem?
    && (if c.conj.Clause? then c.operator != "eq" && AllConjunctive(c.conj.items)
        else c.operator == "eq" ==> c.kind == "" || c.kind == "simple")
  }

  predicate AllConjunctive(items: Items)
    decreases items, 0
  {
    items.More? ==> (items.first.Sub? ==> Conjunctive(items.first.cond)) && AllConjunctive(items.rest)
  }

  predicate IndexedField(f: string) {
    f in {"device_id", "key", "type"}
  }

  function PointField(p: Point, f: string): string
    requires IndexedField(f)
  {
    if f == "device_id" then p.device else if f == "key" then p.key else p.dataType
  }

  lemma IndexedFieldValue(env: Env, f: string, p: Point)
    requires IndexedField(f)
    ensures FieldValue(env, f, p) == Some(Str(PointField(p, f))) && f != "" && !IsBlank(f)
  {
    HeadOfPlain(f);
    assert !IsSpace(f[0]);
  }

  lemma HeadOfPlain(f: string)
    requires IndexedField(f)
    ensures Head(f) == f
  {
    if f == "device_id" {
      UndottedHead("device_id");
    } else if f == "key" {
      UndottedHead("key");
    } else {
      UndottedHead("type");
    }
  }

  lemma {:induction false} UndottedHead(f: string)
    requires forall i | 0 <= i < |f| :: f[i] != '.'
    ensures Head(f) == f
  {
    if f != "" {
      UndottedHead(f[1..]);
      assert f == [f[0]] + f[1..];
    }
  }

  /** When a conjunctive condition holds on a point, every equality leaf on an indexed field compares
      equal to the point's value of that field. */
  lemma {:induction false} PinsHold(env: Env, c: Condition, p: Point, f: string, v: string)
    requires Conjunctive(c) && Evaluate(env, c, p) == Yes && IndexedField(f) && v in Pins(c, f)
    ensures CompareValues(env, Str(PointField(p, f)), Str(v)) == 0
    decreases c, 1
  {
    hide CompareValues;
    if c.conj.Clause? {
      PinsOfHold(env, c.conj.items, p, f, v);
    } else {
      hide EvaluateField;
      LeafPinHolds(env, c, p, f);
    }
  }

  lemma LeafPinHolds(env: Env, c: Condition, p: Point, f: string)
    requires IndexedField(f) && EvaluateField(env, c, p) == Yes && OwnPin(c, f) != []
    ensures OwnPin(c, f) == [c.value.s] && CompareValues(env, Str(PointField(p, f)), c.value) == 0
  {
    hide CompareValues, IsOperator, IsStringOperator, FieldValue, IsBlank, PointField;
    IndexedFieldValue(env, f, p);
  }

  lemma {:induction false} PinsOfHold(env: Env, items: Items, p: Point, f: string, v: string)
    requires AllConjunctive(items) && EvaluateAll(env, items, p) == Yes && IndexedField(f) && v in PinsOf(items, f)
    ensures CompareValues(env, Str(PointField(p, f)), Str(v)) == 0
    decreases items, 0
  {
    hide CompareValues, EvaluateField;
    if items.first.Sub? && v in Pins(items.first.cond, f) {
      PinsHold(env, items.first.cond, p, f, v);
    } else {
      PinsOfHold(env, items.rest, p, f, v);
    }
  }
}
