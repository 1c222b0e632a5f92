/**
 * Which queries are accepted, said without the context that the walk shares: for tests over fields, literals and NULL
 * in which a condition field is only compared with a literal or NULL, or tested for NULL.
 */
module TslAccept {
  import opened Tsl
  import opened TslNames
  import opened TslMeaning

  // ---------------------------------------------------------------------------------------
  // The rules
  // ---------------------------------------------------------------------------------------

  /**
   * A field of the table, a path of keys, a label with a name, or a condition that the table has; the last two not
   * below NOT.
   */
  ghost predicate FieldPermitted(name: string, inNot: bool) {
    if exists key :: IsLabelOf(name, key) then !inNot && name != "labels."
    else if exists ctype, rest :: IsConditionOf(name, ctype, rest) then
      !inNot && exists ctype, rest :: IsConditionOf(name, ctype, rest) && IsConditionType(ctype) &&
                  (rest == "" || rest[1..] in {"last_updated_time", "last_transition_time", "observed_generation"})
    else if exists keys :: IsPath(name, keys) then
      exists keys :: IsPath(name, keys) && forall i :: 0 <= i < |keys| ==> IsKey(keys[i])
    else exists core :: IsTrimmed(name, core) && IsKey(core)
  }

  /** An operand of a plain test: a field, a literal or NULL, possibly negated. */
  predicate IsPlainOperand(n: Node) {
    n.Identifier? || n.NullLit? || IsLiteral(n) ||
    (n.Expr? && n.op.Minus? && n.left.Missing? && IsPlainOperand(n.right))
  }

  predicate MentionsField(n: Node) {
    n.Identifier? || (n.Expr? && MentionsField(n.right))
  }

  predicate MentionsCondition(n: Node) {
    (n.Identifier? && HasPrefix(n.name, "status.conditions.")) || (n.Expr? && MentionsCondition(n.right))
  }

  ghost predicate OperandPermitted(n: Node, inNot: bool) {
    (n.Identifier? ==> FieldPermitted(n.name, inNot)) && (n.Expr? ==> OperandPermitted(n.right, inNot))
  }

  /** The generation is compared with numbers and the times with times, or with NULL. */
  predicate TypeRule(field: Node, value: Node) {
    && (field == Identifier("generation") ==> value.NumberLit? || value.NullLit?)
    && (field in {Identifier("created_time"), Identifier("updated_time"), Identifier("deleted_time")} ==>
          value.TimestampLit? || value.DateLit? || value.NullLit?)
  }

  /** What the subfields of a condition may be compared with. */
  predicate ConditionRule(cfg: Config, cmp: Comparison, subfield: string, value: Node) {
    var text := if value.StringLit? || value.TimestampLit? || value.DateLit? then [value.text] else [];
    if value.NullLit? then true
    else if subfield == "status" then cmp == Eq && (text != [] ==> text[0] in {"True", "False", "Unknown"})
    else if subfield == "observed_generation" then
      value.NumberLit? ==> value.number == value.number.Floor as real && -2147483648.0 <= value.number <= 2147483647.0
    else text != [] ==> cfg.isRfc3339(text[0])
  }

  /** The subfield that a condition field names. */
  ghost predicate NamesSubfield(name: string, subfield: string) {
    exists ctype, rest :: IsConditionOf(name, ctype, rest) && subfield == SubfieldOf(rest)
  }

  predicate IsConditionField(n: Node) {
    n.Identifier? && MentionsCondition(n)
  }

  /**
   * A condition on the left stands there by itself, and in a comparison against a literal or NULL; on the right there
   * is none.
   */
  predicate IsPlainTest(n: Node) {
    && n.Expr? && IsPlainOperand(n.left) && (MentionsCondition(n.left) ==> n.left.Identifier?)
    && match n.op
       case Compare(_) =>
         IsPlainOperand(n.right) && !MentionsCondition(n.right) &&
         (MentionsCondition(n.left) ==> IsLiteral(n.right) || n.right.NullLit?)
       case Like | ILike => IsPlainOperand(n.right) && !MentionsCondition(n.right)
       case In | Between =>
         n.right.ArrayLit? &&
         forall i :: 0 <= i < |n.right.values| ==>
           IsPlainOperand(n.right.values[i]) && !MentionsCondition(n.right.values[i])
       case Is => n.right.NullLit?
       case _ => false
  }

  predicate IsPlainQuery(n: Node) {
    n.Expr? &&
    match n.op
    case And | Or => IsPlainQuery(n.left) && IsPlainQuery(n.right)
    case Not => IsPlainQuery(n.right)
    case _ => IsPlainTest(n)
  }

  ghost predicate ListPermitted(values: seq<Node>, inNot: bool) {
    forall i :: 0 <= i < |values| ==> OperandPermitted(values[i], inNot)
  }

  predicate ListTypeRule(field: Node, values: seq<Node>) {
    forall i :: 0 <= i < |values| ==> TypeRule(field, values[i])
  }

  ghost predicate TestPermitted(cfg: Config, n: Node, inNot: bool)
    requires IsPlainTest(n)
  {
    && OperandPermitted(n.left, inNot)
    && match n.op
       case Compare(cmp) =>
         && (MentionsField(n.left) || MentionsField(n.right)) && OperandPermitted(n.right, inNot)
         && TypeRule(n.left, n.right) && TypeRule(n.right, n.left)
         && (IsConditionField(n.left) ==>
               forall subfield :: NamesSubfield(n.left.name, subfield) ==> ConditionRule(cfg, cmp, subfield, n.right))
       case Like | ILike =>
         !IsConditionField(n.left) && (MentionsField(n.left) || MentionsField(n.right)) &&
         OperandPermitted(n.right, inNot)
       case In =>
         !IsConditionField(n.left) && MentionsField(n.left) && ListPermitted(n.right.values, inNot) &&
         ListTypeRule(n.left, n.right.values)
       case Between =>
         !IsConditionField(n.left) && MentionsField(n.left) && |n.right.values| == 2 &&
         ListPermitted(n.right.values, inNot)
       case _ => MentionsField(n.left)
  }

  ghost predicate QueryPermitted(cfg: Config, n: Node, inNot: bool)
    requires IsPlainQuery(n)
  {
    match n.op
    case And | Or => QueryPermitted(cfg, n.left, inNot) && QueryPermitted(cfg, n.right, inNot)
    case Not => QueryPermitted(cfg, n.right, true)
    case _ => TestPermitted(cfg, n, inNot)
  }

  // ---------------------------------------------------------------------------------------
  // The walk follows them
  // ---------------------------------------------------------------------------------------

  /** Which of the four shapes a name has. */
  lemma ShapeMeans(name: string)
    ensures (exists key :: IsLabelOf(name, key)) <==> IsLabel(name)
    ensures (exists ctype, rest :: IsConditionOf(name, ctype, rest)) <==> IsCondition(name)
    ensures (exists keys :: IsPath(name, keys)) <==> HasPrefix(name, SPEC)
  {
    LabelMeans(name);
    if IsCondition(name) { var ctype, rest := ConditionNamed(name); }
    if ctype, rest :| IsConditionOf(name, ctype, rest) { ConditionMeans(name, ctype, rest); }
    if HasPrefix(name, SPEC) { PathMeans(name); }
    if keys :| IsPath(name, keys) { assert name[..5] == "spec."; }
  }

  lemma FieldMeans(name: string, inNot: bool)
    ensures FieldPermitted(name, inNot) <==> ColumnOk(name, inNot)
  {
    ShapeMeans(name);
    if IsLabel(name) {
    } else if IsCondition(name) {
      var ctype, rest := ConditionNamed(name);
      SubfieldChecked(name, ctype, rest);
      if c, r :| IsConditionOf(name, c, r) && IsConditionType(c) &&
                 (r == "" || r[1..] in {"last_updated_time", "last_transition_time", "observed_generation"}) {
        SubfieldChecked(name, c, r);
      }
    } else if IsSpec(name) {
      PathMeans(name);
    } else {
      ColumnMeans(name);
    }
  }

  lemma ColumnMeans(name: string)
    ensures FieldOk(name) <==> exists core :: IsTrimmed(name, core) && IsKey(core)
  {
    TrimMeans(name);
    OnePart(TrimSpace(name));
    if core :| IsTrimmed(name, core) && IsKey(core) { TrimUnique(name, core); }
  }

  lemma SubfieldsWhole(sub: string)
    requires sub in SUBFIELDS
    ensures '.' !in sub && sub != ""
  {
    if sub == "last_updated_time" {
      assert forall i :: 0 <= i < 17 ==> "last_updated_time"[i] != '.';
    } else if sub == "last_transition_time" {
      assert forall i :: 0 <= i < 20 ==> "last_transition_time"[i] != '.';
    } else {
      assert forall i :: 0 <= i < 19 ==> "observed_generation"[i] != '.';
    }
  }

  lemma SubfieldChecked(name: string, ctype: string, rest: string)
    requires IsConditionOf(name, ctype, rest)
    ensures IsCondition(name) && !IsLabel(name)
    ensures ConditionOk(name) <==> IsConditionType(ctype) && (rest == "" || rest[1..] in SUBFIELDS)
  {
    PartsMean(name, ctype, rest);
    ConditionIsNoLabel(name);
    if rest != "" {
      OnePart(rest[1..]);
      if rest[1..] in SUBFIELDS { SubfieldsWhole(rest[1..]); }
    }
  }

  lemma ConditionIsNoLabel(name: string)
    requires IsCondition(name)
    ensures !IsLabel(name)
  {
    assert name[0] == CONDITIONS[0] == 's' && LABELS[0] == 'l';
  }

  lemma {:induction false} OperandMeans(cfg: Config, n: Node, inNot: bool, sub: string)
    requires IsPlainOperand(n)
    ensures Accept(cfg, n, inNot, sub) <==> OperandPermitted(n, inNot)
    decreases n
  {
    match n
    case Identifier(_) => NamedMeans(cfg, n, inNot, sub);
    case Expr(_, _, r) =>
      OperandMeans(cfg, r, inNot, sub);
      MinusMeans(cfg, n, inNot, sub);
    case _ =>
  }

  lemma NamedMeans(cfg: Config, n: Node, inNot: bool, sub: string)
    requires n.Identifier?
    ensures Accept(cfg, n, inNot, sub) <==> OperandPermitted(n, inNot)
  {
    FieldMeans(n.name, inNot);
  }

  lemma MinusMeans(cfg: Config, n: Node, inNot: bool, sub: string)
    requires n.Expr? && n.op.Minus?
    ensures Accept(cfg, n, inNot, sub) <==> Accept(cfg, n.right, inNot, sub)
    ensures OperandPermitted(n, inNot) <==> OperandPermitted(n.right, inNot)
  {
  }

  /** Without a condition an operand leaves the remembered subfield alone. */
  lemma {:induction false} OperandLeaves(n: Node, sub: string)
    requires IsPlainOperand(n) && !MentionsCondition(n)
    ensures After(n, sub) == sub
    decreases n
  {
    if n.Expr? { OperandLeaves(n.right, sub); }
  }

  lemma {:induction false} ConstantMeans(n: Node)
    requires IsPlainOperand(n)
    ensures IsConstant(n) <==> !MentionsField(n)
    decreases n
  {
    if n.Expr? { ConstantMeans(n.right); }
  }

  lemma {:induction false} ItemAccepted(cfg: Config, a: Node, i: nat, j: nat, inNot: bool, sub: string)
    requires a.ArrayLit? && j < i <= |a.values| && AcceptItems(cfg, a, i, inNot, sub)
    ensures Accept(cfg, a.values[j], inNot, AfterItems(a, j, sub))
    decreases i
  {
    OneMoreItem(cfg, a, i, inNot, sub);
    if j < i - 1 { ItemAccepted(cfg, a, i - 1, j, inNot, sub); }
  }

  lemma {:induction false} ItemsAccepted(cfg: Config, a: Node, i: nat, inNot: bool, sub: string)
    requires a.ArrayLit? && i <= |a.values|
    requires forall j :: 0 <= j < i ==> Accept(cfg, a.values[j], inNot, AfterItems(a, j, sub))
    ensures AcceptItems(cfg, a, i, inNot, sub)
    decreases i
  {
    if i > 0 {
      ItemsAccepted(cfg, a, i - 1, inNot, sub);
      OneMoreItem(cfg, a, i, inNot, sub);
    }
  }

  lemma OneMoreItem(cfg: Config, a: Node, i: nat, inNot: bool, sub: string)
    requires a.ArrayLit? && 0 < i <= |a.values|
    ensures AcceptItems(cfg, a, i, inNot, sub) <==>
            AcceptItems(cfg, a, i - 1, inNot, sub) && Accept(cfg, a.values[i - 1], inNot, AfterItems(a, i - 1, sub))
  {
  }

  lemma {:induction false} ItemsLeave(a: Node, i: nat, sub: string)
    requires a.ArrayLit? && i <= |a.values|
    requires forall j :: 0 <= j < |a.values| ==> IsPlainOperand(a.values[j]) && !MentionsCondition(a.values[j])
    ensures AfterItems(a, i, sub) == sub
    decreases i
  {
    if i > 0 {
      ItemsLeave(a, i - 1, sub);
      OperandLeaves(a.values[i - 1], sub);
    }
  }

  lemma TypeMeans(field: Node, value: Node)
    ensures TypeRule(field, value) <==> Fits(ExpectedFor(field), value)
  {
  }

  lemma ConditionFieldMeans(cfg: Config, n: Node, cmp: Comparison)
    requires IsPlainTest(n) && n.op == Compare(cmp) && IsConditionField(n.left)
    requires Accept(cfg, n.left, false, "")
    ensures After(n.left, "") == Subfield(n.left.name) && Subfield(n.left.name) != ""
    ensures ConditionComparisonOk(cfg, cmp, Subfield(n.left.name), Args(n.right)) <==>
            forall subfield :: NamesSubfield(n.left.name, subfield) ==> ConditionRule(cfg, cmp, subfield, n.right)
  {
    var name := n.left.name;
    var ctype, rest := ConditionNamed(name);
    ConditionMeans(name, ctype, rest);
    SubfieldChecked(name, ctype, rest);
    if rest != "" { SubfieldsWhole(rest[1..]); }
    assert NamesSubfield(name, Subfield(name));
    forall subfield | NamesSubfield(name, subfield) ensures subfield == Subfield(name) {
      var c, r :| IsConditionOf(name, c, r) && subfield == SubfieldOf(r);
      ConditionMeans(name, c, r);
    }
    assert Subfield(name) == STATUS || Subfield(name) in SUBFIELDS;
    RuleMeans(cfg, cmp, Subfield(name), n.right);
  }

  lemma RuleMeans(cfg: Config, cmp: Comparison, subfield: string, value: Node)
    requires (subfield == STATUS || subfield in SUBFIELDS) && (IsLiteral(value) || value.NullLit?)
    ensures ConditionComparisonOk(cfg, cmp, subfield, Args(value)) <==> ConditionRule(cfg, cmp, subfield, value)
  {
  }

  lemma SideMeans(cfg: Config, n: Node, inNot: bool, sub: string)
    requires IsPlainOperand(n)
    ensures Accept(cfg, n, inNot, sub) <==> OperandPermitted(n, inNot)
    ensures IsConstant(n) <==> !MentionsField(n)
    ensures !MentionsCondition(n) ==> After(n, sub) == sub
  {
    OperandMeans(cfg, n, inNot, sub);
    ConstantMeans(n);
    if !MentionsCondition(n) { OperandLeaves(n, sub); }
  }

  lemma ListMeans(cfg: Config, a: Node, inNot: bool, sub: string)
    requires a.ArrayLit?
    requires forall j :: 0 <= j < |a.values| ==> IsPlainOperand(a.values[j]) && !MentionsCondition(a.values[j])
    ensures AcceptItems(cfg, a, |a.values|, inNot, sub) <==> ListPermitted(a.values, inNot)
    ensures AfterItems(a, |a.values|, sub) == sub
  {
    ItemsLeave(a, |a.values|, sub);
    forall j | 0 <= j < |a.values|
      ensures Accept(cfg, a.values[j], inNot, AfterItems(a, j, sub)) <==> OperandPermitted(a.values[j], inNot)
    {
      OperandMeans(cfg, a.values[j], inNot, AfterItems(a, j, sub));
    }
    if AcceptItems(cfg, a, |a.values|, inNot, sub) {
      forall j | 0 <= j < |a.values| ensures OperandPermitted(a.values[j], inNot) {
        ItemAccepted(cfg, a, |a.values|, j, inNot, sub);
      }
    } else if ListPermitted(a.values, inNot) {
      ItemsAccepted(cfg, a, |a.values|, inNot, sub);
    }
  }

  /** A plain test is accepted exactly when the rules permit it, and leaves nothing behind. */
  lemma TestMeans(cfg: Config, n: Node, inNot: bool)
    requires IsPlainTest(n)
    ensures Accept(cfg, n, inNot, "") <==> TestPermitted(cfg, n, inNot)
    ensures Accept(cfg, n, inNot, "") ==> After(n, "") == ""
  {
    SideMeans(cfg, n.left, inNot, "");
    match n.op
    case Compare(cmp) => CompareMeans(cfg, n, cmp, inNot);
    case Like | ILike =>
      SideMeans(cfg, n.right, inNot, After(n.left, ""));
    case In => InMeans(cfg, n, inNot);
    case Between => BetweenMeans(cfg, n, inNot);
    case Is =>
  }

  lemma CompareMeans(cfg: Config, n: Node, cmp: Comparison, inNot: bool)
    requires IsPlainTest(n) && n.op == Compare(cmp)
    ensures Accept(cfg, n, inNot, "") <==> TestPermitted(cfg, n, inNot)
  {
    SideMeans(cfg, n.left, inNot, "");
    SideMeans(cfg, n.right, inNot, After(n.left, ""));
    TypeMeans(n.left, n.right);
    TypeMeans(n.right, n.left);
    if IsConditionField(n.left) && Accept(cfg, n.left, inNot, "") { ConditionFieldMeans(cfg, n, cmp); }
  }

  lemma InMeans(cfg: Config, n: Node, inNot: bool)
    requires IsPlainTest(n) && n.op.In?
    ensures Accept(cfg, n, inNot, "") <==> TestPermitted(cfg, n, inNot)
    ensures Accept(cfg, n, inNot, "") ==> After(n, "") == ""
  {
    SideMeans(cfg, n.left, inNot, "");
    ListMeans(cfg, n.right, inNot, After(n.left, ""));
    TypesMean(n.left, n.right.values);
    InAccepted(cfg, n, inNot);
  }

  lemma InAccepted(cfg: Config, n: Node, inNot: bool)
    requires n.Expr? && n.op.In? && n.right.ArrayLit?
    ensures Accept(cfg, n, inNot, "") <==>
            && !IsConditionNode(n.left) && !IsConstant(n.left) && Accept(cfg, n.left, inNot, "")
            && AllFit(ExpectedFor(n.left), n.right.values)
            && AcceptItems(cfg, n.right, |n.right.values|, inNot, After(n.left, ""))
    ensures After(n, "") == AfterItems(n.right, |n.right.values|, After(n.left, ""))
  {
  }

  lemma TypesMean(field: Node, values: seq<Node>)
    ensures AllFit(ExpectedFor(field), values) <==> ListTypeRule(field, values)
  {
    forall i | 0 <= i < |values| ensures TypeRule(field, values[i]) <==> Fits(ExpectedFor(field), values[i]) {
      TypeMeans(field, values[i]);
    }
  }

  lemma BetweenMeans(cfg: Config, n: Node, inNot: bool)
    requires IsPlainTest(n) && n.op.Between?
    ensures Accept(cfg, n, inNot, "") <==> TestPermitted(cfg, n, inNot)
    ensures Accept(cfg, n, inNot, "") ==> After(n, "") == ""
  {
    SideMeans(cfg, n.left, inNot, "");
    ListMeans(cfg, n.right, inNot, After(n.left, ""));
  }

  /** The walk, with the context that it shares, accepts exactly the plain queries that the rules permit. */
  lemma {:induction false} QueryMeans(cfg: Config, n: Node, inNot: bool)
    requires IsPlainQuery(n)
    ensures Accept(cfg, n, inNot, "") <==> QueryPermitted(cfg, n, inNot)
    ensures Accept(cfg, n, inNot, "") ==> After(n, "") == ""
    decreases n
  {
    match n.op
    case And | Or =>
      QueryMeans(cfg, n.left, inNot);
      QueryMeans(cfg, n.right, inNot);
    case Not => QueryMeans(cfg, n.right, true);
    case _ => TestMeans(cfg, n, inNot);
  }

  /** So Compile accepts exactly these. */
  lemma AcceptedExactly(cfg: Config, n: Node)
    requires IsPlainQuery(n)
    ensures Accepted(cfg, n) <==> QueryPermitted(cfg, n, false)
  {
    QueryMeans(cfg, n, false);
  }
}
