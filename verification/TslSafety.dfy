/** What every accepted search guarantees about the emitted text, whatever the tree looks like. */
module TslSafety {
  import opened Tsl
  import opened TslNames

  // ---------------------------------------------------------------------------------------
  // Placeholders and arguments
  // ---------------------------------------------------------------------------------------

  function Placeholders(sql: seq<Token>): nat {
    multiset(sql)[Placeholder]
  }

  lemma {:induction false} PathHasNone(keys: seq<string>)
    ensures Placeholders(PathTokens(keys)) == 0
  {
    if |keys| > 1 { PathHasNone(keys[1..]); }
  }

  lemma ColumnPlaceholders(cfg: Config, name: string)
    ensures Placeholders(ColumnTokens(cfg, name)) == |ColumnArgs(name)|
  {
    if IsSpec(name) { PathHasNone(SpecKeys(name)); }
  }

  lemma CastedPlaceholders(sql: seq<Token>, numeric: bool)
    ensures Placeholders(Casted(sql, numeric)) == Placeholders(sql)
  {
  }

  lemma Infix(a: seq<Token>, infix: seq<Token>, b: seq<Token>)
    requires Placeholder !in infix
    ensures Placeholders(a + infix + b) == Placeholders(a) + Placeholders(b)
  {
  }

  lemma Around(before: seq<Token>, sql: seq<Token>, after: seq<Token>)
    requires Placeholder !in before && Placeholder !in after
    ensures Placeholders(before + sql + after) == Placeholders(sql)
  {
  }

  lemma Bracketed(a: seq<Token>, keyword: Token, b: seq<Token>)
    requires keyword != Placeholder
    ensures Placeholders([Open] + a + [Close, keyword, Open] + b + [Close]) == Placeholders(a) + Placeholders(b)
  {
  }

  lemma Listed(a: seq<Token>, items: seq<Token>)
    ensures Placeholders(a + [InWord, Open] + items + [Close]) == Placeholders(a) + Placeholders(items)
  {
  }

  /** Each placeholder of an accepted query has its argument. */
  lemma {:induction false} PlaceholdersMatchArgs(cfg: Config, n: Node, inNot: bool, sub: string)
    requires Accept(cfg, n, inNot, sub)
    ensures Placeholders(Emit(cfg, n)) == |Args(n)|
    decreases n, 2
  {
    match n
    case Identifier(name) => ColumnPlaceholders(cfg, name);
    case ArrayLit(values) => ItemsMatch(cfg, n, inNot, sub);
    case Expr(op, l, r) =>
      match op {
        case And | Or => LogicalPlaceholders(cfg, n, inNot, sub);
        case Like | ILike => MatchPlaceholders(cfg, n, inNot, sub);
        case Compare(_) => ComparePlaceholders(cfg, n, inNot, sub);
        case In => InPlaceholders(cfg, n, inNot, sub);
        case Between => BetweenPlaceholders(cfg, n, inNot, sub);
        case Not =>
          PlaceholdersMatchArgs(cfg, r, true, "");
          Around([NotWord, Open], Emit(cfg, r), [Close]);
        case Minus =>
          PlaceholdersMatchArgs(cfg, r, inNot, sub);
          Around([Open, MinusSign], Emit(cfg, r), [Close]);
        case Is =>
          PlaceholdersMatchArgs(cfg, l, inNot, sub);
        case OtherOp(_) =>
      }
    case _ =>
  }

  lemma {:induction false} LogicalPlaceholders(cfg: Config, n: Node, inNot: bool, sub: string)
    requires n.Expr? && (n.op.And? || n.op.Or?) && Accept(cfg, n, inNot, sub)
    ensures Placeholders(Emit(cfg, n)) == |Args(n)|
    decreases n, 1
  {
    PlaceholdersMatchArgs(cfg, n.left, inNot, sub);
    PlaceholdersMatchArgs(cfg, n.right, inNot, After(n.left, sub));
    Bracketed(Emit(cfg, n.left), if n.op.And? then AndWord else OrWord, Emit(cfg, n.right));
  }

  lemma {:induction false} MatchPlaceholders(cfg: Config, n: Node, inNot: bool, sub: string)
    requires n.Expr? && (n.op.Like? || n.op.ILike?) && Accept(cfg, n, inNot, sub)
    ensures Placeholders(Emit(cfg, n)) == |Args(n)|
    decreases n, 1
  {
    PlaceholdersMatchArgs(cfg, n.left, inNot, sub);
    PlaceholdersMatchArgs(cfg, n.right, inNot, After(n.left, sub));
    Infix(Emit(cfg, n.left), [if n.op.Like? then LikeWord else ILikeWord], Emit(cfg, n.right));
  }

  lemma {:induction false} ComparePlaceholders(cfg: Config, n: Node, inNot: bool, sub: string)
    requires n.Expr? && n.op.Compare? && Accept(cfg, n, inNot, sub)
    ensures Placeholders(Emit(cfg, n)) == |Args(n)|
    decreases n, 1
  {
    var l, r := n.left, n.right;
    PlaceholdersMatchArgs(cfg, l, inNot, sub);
    PlaceholdersMatchArgs(cfg, r, inNot, After(l, sub));
    CastedPlaceholders(Emit(cfg, l), StartsWithNumber(Args(r)));
    CastedPlaceholders(Emit(cfg, r), StartsWithNumber(Args(l)));
    Infix(Casted(Emit(cfg, l), StartsWithNumber(Args(r))), [CompareSign(n.op.cmp)],
          Casted(Emit(cfg, r), StartsWithNumber(Args(l))));
  }

  lemma {:induction false} InPlaceholders(cfg: Config, n: Node, inNot: bool, sub: string)
    requires n.Expr? && n.op.In? && Accept(cfg, n, inNot, sub)
    ensures Placeholders(Emit(cfg, n)) == |Args(n)|
    decreases n, 1
  {
    var l, r := n.left, n.right;
    PlaceholdersMatchArgs(cfg, l, inNot, sub);
    ItemsMatch(cfg, r, inNot, After(l, sub));
    var cast := Casted(Emit(cfg, l), AllNumbers(Args(r)));
    CastedPlaceholders(Emit(cfg, l), AllNumbers(Args(r)));
    Listed(cast, JoinItems(ItemTokens(cfg, r)));
  }

  lemma {:induction false} BetweenPlaceholders(cfg: Config, n: Node, inNot: bool, sub: string)
    requires n.Expr? && n.op.Between? && Accept(cfg, n, inNot, sub)
    ensures Placeholders(Emit(cfg, n)) == |Args(n)|
    decreases n, 1
  {
    var l, r := n.left, n.right;
    var low, high := r.values[0], r.values[1];
    BetweenItems(cfg, r, inNot, After(l, sub));
    PlaceholdersMatchArgs(cfg, l, inNot, sub);
    PlaceholdersMatchArgs(cfg, low, inNot, After(l, sub));
    PlaceholdersMatchArgs(cfg, high, inNot, After(low, After(l, sub)));
    var cast := Casted(Emit(cfg, l), StartsWithNumber(Args(low)) && StartsWithNumber(Args(high)));
    CastedPlaceholders(Emit(cfg, l), StartsWithNumber(Args(low)) && StartsWithNumber(Args(high)));
    Infix(cast, [BetweenWord], Emit(cfg, low));
    Infix(cast + [BetweenWord] + Emit(cfg, low), [AndWord], Emit(cfg, high));
  }

  lemma {:induction false} ItemsMatch(cfg: Config, a: Node, inNot: bool, sub: string)
    requires a.ArrayLit? && AcceptItems(cfg, a, |a.values|, inNot, sub)
    ensures Placeholders(JoinItems(ItemTokens(cfg, a))) == |Args(a)|
    decreases a, 0
  {
    forall i | 0 <= i < |a.values| ensures Placeholders(Emit(cfg, a.values[i])) == |Args(a.values[i])| {
      AcceptedItem(cfg, a, |a.values|, inNot, sub, i);
      PlaceholdersMatchArgs(cfg, a.values[i], inNot, AfterItems(a, i, sub));
    }
    JoinMatchesFlatten(ItemTokens(cfg, a), ItemArgs(a));
  }

  lemma {:induction false} JoinMatchesFlatten(parts: seq<seq<Token>>, args: seq<seq<Arg>>)
    requires |parts| == |args|
    requires forall i :: 0 <= i < |parts| ==> Placeholders(parts[i]) == |args[i]|
    ensures Placeholders(JoinItems(parts)) == |Flatten(args)|
  {
    if |parts| == 1 {
      assert args[..0] == [];
    } else if |parts| > 1 {
      JoinMatchesFlatten(parts[1..], args[1..]);
      FlattenFront(args);
    }
  }

  lemma {:induction false} FlattenFront(parts: seq<seq<Arg>>)
    requires parts != []
    ensures Flatten(parts) == parts[0] + Flatten(parts[1..])
  {
    if |parts| == 1 {
      assert parts[..0] == [] && parts[1..] == [];
    } else {
      var front := parts[..|parts| - 1];
      FlattenFront(front);
      assert front[1..] == parts[1..][..|parts[1..]| - 1];
    }
  }

  lemma {:induction false} AcceptedItem(cfg: Config, a: Node, n: nat, inNot: bool, sub: string, i: nat)
    requires a.ArrayLit? && i < n <= |a.values| && AcceptItems(cfg, a, n, inNot, sub)
    ensures Accept(cfg, a.values[i], inNot, AfterItems(a, i, sub))
  {
    if i < n - 1 { AcceptedItem(cfg, a, n - 1, inNot, sub, i); }
  }

  // ---------------------------------------------------------------------------------------
  // Subtrees
  // ---------------------------------------------------------------------------------------

  /** `m` is `n` or lies below it, at any depth. */
  ghost predicate Within(m: Node, n: Node)
    decreases n
  {
    m == n ||
    match n
    case ArrayLit(values) => exists i :: 0 <= i < |values| && Within(m, values[i])
    case Expr(op, l, r) => (!op.Not? && !op.Minus? && Within(m, l)) || (!op.Is? && Within(m, r))
    case _ => false
  }

  ghost predicate NamesLabelOrCondition(m: Node) {
    m.Identifier? && (IsLabel(m.name) || IsCondition(m.name))
  }

  /** An accepted tree accepts each of its subtrees, and a subtree stays under every NOT that its tree is under. */
  lemma {:induction false} AcceptedWithin(cfg: Config, m: Node, n: Node, inNot: bool, sub: string)
    returns (deeper: bool, seen: string)
    requires Within(m, n) && Accept(cfg, n, inNot, sub)
    ensures Accept(cfg, m, deeper, seen) || (m.ArrayLit? && AcceptItems(cfg, m, |m.values|, deeper, seen))
    ensures inNot ==> deeper
    decreases n
  {
    deeper, seen := inNot, sub;
    if m != n {
      match n
      case ArrayLit(values) =>
        var i :| 0 <= i < |values| && Within(m, values[i]);
        AcceptedItem(cfg, n, |values|, inNot, sub, i);
        deeper, seen := AcceptedWithin(cfg, m, values[i], inNot, AfterItems(n, i, sub));
      case Expr(op, l, r) =>
        if !op.Not? && !op.Minus? && Within(m, l) {
          deeper, seen := AcceptedWithin(cfg, m, l, inNot, sub);
        } else if op.Not? {
          deeper, seen := AcceptedWithin(cfg, m, r, true, "");
        } else if op.Minus? {
          deeper, seen := AcceptedWithin(cfg, m, r, inNot, sub);
        } else {
          deeper, seen := AcceptedWithin(cfg, m, r, inNot, After(l, sub));
        }
      case _ =>
    }
  }

  /** No label or condition field lies under a NOT, at any depth. */
  lemma NoLabelUnderNot(cfg: Config, n: Node, negated: Node, field: Node)
    requires Accepted(cfg, n) && Within(negated, n) && negated.Expr? && negated.op.Not?
    requires Within(field, negated.right)
    ensures !NamesLabelOrCondition(field)
  {
    var inNot, sub := AcceptedWithin(cfg, negated, n, false, "");
    var deeper, seen := AcceptedWithin(cfg, field, negated.right, true, "");
  }

  /** `m` occurs in `n`. */
  ghost predicate Occurs(m: Node, n: Node)
    decreases n
  {
    m == n || (n.Expr? && (Occurs(m, n.left) || Occurs(m, n.right)))
  }

  lemma {:induction false} NotConstantMentions(n: Node) returns (field: Node)
    requires !IsConstant(n)
    ensures field.Identifier? && Occurs(field, n)
  {
    field := n;
    if n.Expr? { field := NotConstantMentions(if IsConstant(n.left) then n.right else n.left); }
  }

  /** The test has a field to be about: on the left for IN, BETWEEN and IS NULL, on either side otherwise. */
  ghost predicate AboutAField(test: Node)
    requires test.Expr?
  {
    exists field: Node :: field.Identifier? &&
      (Occurs(field, test.left) || (Occurs(field, test.right) && !test.op.In? && !test.op.Between? && !test.op.Is?))
  }

  /** Every comparison, IN, BETWEEN, LIKE and IS NULL of an accepted query, at any depth, is about a field. */
  lemma TestsMentionFields(cfg: Config, n: Node, test: Node)
    requires Accepted(cfg, n) && Within(test, n) && test.Expr?
    requires !test.op.And? && !test.op.Or? && !test.op.Not? && !test.op.Minus?
    ensures AboutAField(test)
  {
    var inNot, sub := AcceptedWithin(cfg, test, n, false, "");
    var field := NotConstantMentions(if IsConstant(test.left) then test.right else test.left);
  }

  // ---------------------------------------------------------------------------------------
  // What of the query reaches the text
  // ---------------------------------------------------------------------------------------

  /** The only pieces of the query in the text are checked names; everything else travels as an argument. */
  predicate Harmless(cfg: Config, t: Token) {
    match t
    case Arrow(key) => IsKey(key)
    case ArrowText(key) => IsKey(key)
    case Column(table, name) => table == cfg.table && IsKey(name)
    case SelectLabel(table) => table == cfg.table
    case SelectCondition(subfield, table) => table == cfg.table && (subfield == STATUS || subfield in SUBFIELDS)
    case _ => true
  }

  predicate AllHarmless(cfg: Config, sql: seq<Token>) {
    forall t :: t in sql ==> Harmless(cfg, t)
  }

  lemma {:induction false} PathHarmless(cfg: Config, keys: seq<string>)
    requires AllKeys(keys)
    ensures AllHarmless(cfg, PathTokens(keys))
  {
    if |keys| > 1 { PathHarmless(cfg, keys[1..]); }
  }

  lemma ColumnHarmless(cfg: Config, name: string, inNot: bool)
    requires ColumnOk(name, inNot)
    ensures AllHarmless(cfg, ColumnTokens(cfg, name))
  {
    if IsSpec(name) {
      PathHarmless(cfg, SpecKeys(name));
    } else if !IsLabel(name) && !IsCondition(name) {
      OnePart(TrimSpace(name));
    }
  }

  lemma {:induction false} JoinHarmless(cfg: Config, parts: seq<seq<Token>>)
    requires forall i :: 0 <= i < |parts| ==> AllHarmless(cfg, parts[i])
    ensures AllHarmless(cfg, JoinItems(parts))
  {
    if |parts| > 1 { JoinHarmless(cfg, parts[1..]); }
  }

  lemma {:induction false} EmittedHarmless(cfg: Config, n: Node, inNot: bool, sub: string)
    requires Accept(cfg, n, inNot, sub)
    ensures AllHarmless(cfg, Emit(cfg, n))
    decreases n, 2
  {
    match n
    case Identifier(name) => ColumnHarmless(cfg, name, inNot);
    case ArrayLit(values) => ItemsHarmless(cfg, n, inNot, sub);
    case Expr(op, l, r) =>
      match op {
        case And | Or | Like | ILike =>
          EmittedHarmless(cfg, l, inNot, sub);
          EmittedHarmless(cfg, r, inNot, After(l, sub));
        case Not => EmittedHarmless(cfg, r, true, "");
        case Minus => EmittedHarmless(cfg, r, inNot, sub);
        case Is => EmittedHarmless(cfg, l, inNot, sub);
        case _ => TestHarmless(cfg, n, inNot, sub);
      }
    case _ =>
  }

  lemma {:induction false} TestHarmless(cfg: Config, n: Node, inNot: bool, sub: string)
    requires n.Expr? && (n.op.Compare? || n.op.In? || n.op.Between?) && Accept(cfg, n, inNot, sub)
    ensures AllHarmless(cfg, Emit(cfg, n))
    decreases n, 1
  {
    var l, r := n.left, n.right;
    EmittedHarmless(cfg, l, inNot, sub);
    if n.op.Compare? {
      EmittedHarmless(cfg, r, inNot, After(l, sub));
    } else if n.op.In? {
      ItemsHarmless(cfg, r, inNot, After(l, sub));
    } else {
      BetweenItems(cfg, r, inNot, After(l, sub));
      EmittedHarmless(cfg, r.values[0], inNot, After(l, sub));
      EmittedHarmless(cfg, r.values[1], inNot, After(r.values[0], After(l, sub)));
    }
  }

  lemma {:induction false} ItemsHarmless(cfg: Config, a: Node, inNot: bool, sub: string)
    requires a.ArrayLit? && AcceptItems(cfg, a, |a.values|, inNot, sub)
    ensures AllHarmless(cfg, JoinItems(ItemTokens(cfg, a)))
    decreases a, 0
  {
    forall i | 0 <= i < |a.values| ensures AllHarmless(cfg, Emit(cfg, a.values[i])) {
      AcceptedItem(cfg, a, |a.values|, inNot, sub, i);
      EmittedHarmless(cfg, a.values[i], inNot, AfterItems(a, i, sub));
    }
    JoinHarmless(cfg, ItemTokens(cfg, a));
  }

  // ---------------------------------------------------------------------------------------
  // The shared condition subfield
  // ---------------------------------------------------------------------------------------

  /** No condition field anywhere in `n`. */
  ghost predicate ConditionFree(n: Node)
    decreases n
  {
    match n
    case Identifier(name) => IsLabel(name) || !IsCondition(name)
    case ArrayLit(values) => forall i :: 0 <= i < |values| ==> ConditionFree(values[i])
    case Expr(_, l, r) => ConditionFree(l) && ConditionFree(r)
    case _ => true
  }

  /** Condition fields occur only as direct operands of comparisons and of IS NULL. */
  ghost predicate ConditionsDirect(n: Node)
    decreases n
  {
    match n
    case Expr(op, l, r) =>
      (match op
       case And | Or => ConditionsDirect(l) && ConditionsDirect(r)
       case Not => ConditionFree(l) && ConditionsDirect(r)
       case Compare(_) => (IsConditionNode(l) || ConditionFree(l)) && (IsConditionNode(r) || ConditionFree(r))
       case Is => (IsConditionNode(l) || ConditionFree(l)) && ConditionFree(r)
       case _ => ConditionFree(n))
    case _ => ConditionFree(n)
  }

  lemma {:induction false} FreeLeavesNothing(n: Node, sub: string)
    requires ConditionFree(n)
    ensures sub == "" ==> After(n, sub) == ""
    decreases n, 1, 0
  {
    match n
    case ArrayLit(values) => FreeItems(n, |values|, sub);
    case Expr(op, l, r) =>
      FreeLeavesNothing(l, sub);
      FreeLeavesNothing(r, sub);
      if op.And? || op.Or? || op.Like? || op.ILike? { FreeLeavesNothing(r, After(l, sub)); }
      if r.ArrayLit? { FreeItems(r, |r.values|, After(l, sub)); }
    case _ =>
  }

  lemma {:induction false} FreeItems(a: Node, i: nat, sub: string)
    requires a.ArrayLit? && i <= |a.values| && ConditionFree(a)
    ensures sub == "" ==> AfterItems(a, i, sub) == ""
    decreases a, 0, i
  {
    if i > 0 {
      FreeItems(a, i - 1, sub);
      FreeLeavesNothing(a.values[i - 1], AfterItems(a, i - 1, sub));
    }
  }

  /** Such a predicate leaves the shared subfield clear. */
  lemma {:induction false} SubfieldCleared(n: Node)
    requires ConditionsDirect(n) && MayBePredicate(n)
    ensures After(n, "") == ""
  {
    match n
    case Expr(op, l, r) =>
      match op {
       case And | Or =>
         if MayBePredicate(l) { SubfieldCleared(l); } else { FreeLeavesNothing(l, ""); }
         if MayBePredicate(r) { SubfieldCleared(r); } else { FreeLeavesNothing(r, ""); }
       case _ => if ConditionFree(n) { FreeLeavesNothing(n, ""); }
      }
    case _ =>
  }

  /** So parts of such a query do not influence each other: AND and OR accept exactly what both sides accept alone. */
  lemma NoLeak(cfg: Config, n: Node)
    requires n.Expr? && (n.op.And? || n.op.Or?) && ConditionsDirect(n)
    ensures Accepted(cfg, n) <==> Accepted(cfg, n.left) && Accepted(cfg, n.right)
  {
    if MayBePredicate(n.left) { SubfieldCleared(n.left); }
  }

  /** A bare key is a field of the table. */
  lemma KeyIsField(s: string)
    requires IsKey(s)
    ensures FieldOk(s) && !IsLabel(s) && !IsCondition(s) && !IsSpec(s)
  {
    assert '.' !in s;
    OnePart(s);
    assert LABELS[6] == '.' && CONDITIONS[6] == '.' && SPEC[4] == '.';
  }

  lemma KeyAccepted(cfg: Config, s: string, inNot: bool, sub: string)
    requires IsKey(s)
    ensures Accept(cfg, Identifier(s), inNot, sub) && After(Identifier(s), sub) == sub && Args(Identifier(s)) == []
  {
    KeyIsField(s);
  }

  lemma ConditionField(cfg: Config, t: string, sub: string)
    requires IsConditionType(t)
    ensures IsCondition(CONDITIONS + t) && !IsLabel(CONDITIONS + t)
    ensures After(Identifier(CONDITIONS + t), sub) == STATUS && Accept(cfg, Identifier(CONDITIONS + t), false, sub)
  {
    var name := CONDITIONS + t;
    assert name[..|CONDITIONS|] == CONDITIONS && name[|CONDITIONS|..] == t;
    assert name[0] == 's' && LABELS[0] == 'l';
    OnePart(t);
  }

  /** `f LIKE status.conditions.t`, with fields on both sides. */
  function LikeCondition(f: string, t: string): Node {
    Expr(Like, Identifier(f), Identifier(CONDITIONS + t))
  }

  function GreaterThan(g: string, x: real): Node {
    Expr(Compare(Gt), Identifier(g), NumberLit(x))
  }

  lemma LikeConditionAccepted(cfg: Config, f: string, t: string)
    requires IsKey(f) && IsConditionType(t)
    ensures Accepted(cfg, LikeCondition(f, t)) && After(LikeCondition(f, t), "") == STATUS
  {
    KeyIsField(f);
    KeyAccepted(cfg, f, false, "");
    ConditionField(cfg, t, "");
  }

  lemma GreaterAccepted(cfg: Config, g: string, x: real, sub: string)
    requires IsKey(g) && !ExpectedFor(Identifier(g)).WantsTimestamp?
    ensures Accept(cfg, GreaterThan(g, x), false, sub) <==>
              sub == "" || ConditionComparisonOk(cfg, Gt, sub, [Number(x)])
    ensures After(GreaterThan(g, x), sub) == ""
  {
    KeyIsField(g);
    KeyAccepted(cfg, g, false, sub);
    var l, r := Identifier(g), NumberLit(x);
    assert After(l, sub) == sub && After(r, sub) == sub && Args(r) == [Number(x)];
    assert Accept(cfg, l, false, sub) && Accept(cfg, r, false, sub) && !IsConditionNode(r) && !IsConditionNode(l);
  }

  /**
   * Without that restriction they do: a condition on the right of LIKE leaves its subfield behind, and a comparison of
   * another field that comes later is refused as if it compared the condition.
   */
  lemma LeakedSubfield(cfg: Config, f: string, t: string, g: string, x: real)
    requires IsKey(f) && IsConditionType(t) && IsKey(g) && !ExpectedFor(Identifier(g)).WantsTimestamp?
    ensures Accepted(cfg, LikeCondition(f, t)) && Accepted(cfg, GreaterThan(g, x))
    ensures Accepted(cfg, Expr(And, GreaterThan(g, x), LikeCondition(f, t)))
    ensures !Accepted(cfg, Expr(And, LikeCondition(f, t), GreaterThan(g, x)))
  {
    LikeConditionAccepted(cfg, f, t);
    GreaterAccepted(cfg, g, x, "");
    GreaterAccepted(cfg, g, x, STATUS);
  }

  /** What the shared context can remember. */
  predicate Rememberable(sub: string) {
    sub == "" || sub == STATUS || sub in SUBFIELDS
  }

  lemma {:induction false} RemembersSubfield(cfg: Config, n: Node, inNot: bool, sub: string)
    requires Accept(cfg, n, inNot, sub) && Rememberable(sub)
    ensures Rememberable(After(n, sub))
    decreases n, 1, 0
  {
    match n
    case ArrayLit(values) => ItemsRemember(cfg, n, |values|, inNot, sub);
    case Expr(op, l, r) =>
      match op {
        case And | Or | Like | ILike =>
          RemembersSubfield(cfg, l, inNot, sub);
          RemembersSubfield(cfg, r, inNot, After(l, sub));
        case In | Between =>
          RemembersSubfield(cfg, l, inNot, sub);
          ItemsRemember(cfg, r, |r.values|, inNot, After(l, sub));
        case Minus => RemembersSubfield(cfg, r, inNot, sub);
        case _ =>
      }
    case _ =>
  }

  lemma {:induction false} ItemsRemember(cfg: Config, a: Node, i: nat, inNot: bool, sub: string)
    requires a.ArrayLit? && i <= |a.values| && AcceptItems(cfg, a, i, inNot, sub) && Rememberable(sub)
    ensures Rememberable(AfterItems(a, i, sub))
    decreases a, 0, i
  {
    if i > 0 {
      ItemsRemember(cfg, a, i - 1, inNot, sub);
      RemembersSubfield(cfg, a.values[i - 1], inNot, AfterItems(a, i - 1, sub));
    }
  }

  /** A comparison of the field `g` that is fine by itself, and that a remembered subfield makes the compiler refuse. */
  function Refusable(g: string, bad: string, sub: string): Node {
    if sub == STATUS then Expr(Compare(Gt), Identifier(g), NumberLit(1.0))
    else if sub == "observed_generation" then Expr(Compare(Eq), Identifier(g), NumberLit(0.5))
    else Expr(Compare(Eq), Identifier(g), StringLit(bad))
  }

  lemma RefusedUnderSubfield(cfg: Config, g: string, bad: string, sub: string)
    requires IsKey(g) && ExpectedFor(Identifier(g)).Untyped? && !cfg.isRfc3339(bad)
    requires sub == STATUS || sub in SUBFIELDS
    ensures Accepted(cfg, Refusable(g, bad, sub)) && !Accept(cfg, Refusable(g, bad, sub), false, sub)
  {
    KeyIsField(g);
    KeyAccepted(cfg, g, false, "");
    KeyAccepted(cfg, g, false, sub);
    assert !IsInt32(0.5);
    var value := if sub == STATUS then Number(1.0) else if sub == "observed_generation" then Number(0.5) else Text(bad);
    assert !ConditionComparisonOk(cfg, if sub == STATUS then Gt else Eq, sub, [value]);
  }

  /** Whatever is accepted by itself is accepted behind `l`. */
  ghost predicate Transparent(cfg: Config, op: Op, l: Node) {
    forall r :: Accepted(cfg, r) ==> Accepted(cfg, Expr(op, l, r))
  }

  /**
   * Exactly: an accepted side in front accepts behind it all that is accepted by itself, if and only if its walk leaves
   * no subfield behind. (There is some field without an expected type, and some text that is no time.)
   */
  lemma LeaksExactly(cfg: Config, op: Op, l: Node, g: string, bad: string)
    requires (op.And? || op.Or?) && Accepted(cfg, l)
    requires IsKey(g) && ExpectedFor(Identifier(g)).Untyped? && !cfg.isRfc3339(bad)
    ensures Transparent(cfg, op, l) <==> After(l, "") == ""
  {
    RemembersSubfield(cfg, l, false, "");
    if After(l, "") != "" {
      var r := Refusable(g, bad, After(l, ""));
      RefusedUnderSubfield(cfg, g, bad, After(l, ""));
      assert Accepted(cfg, r) && !Accepted(cfg, Expr(op, l, r));
    }
  }
}
