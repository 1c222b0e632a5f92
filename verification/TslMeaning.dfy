/**
 * Compilation preserves meaning. For queries whose tests are over fields, literals and their negation, the emitted text
 * read as SQL is the tree that was meant, exactly when no IN list is empty and no spec path is negated.
 */
module TslMeaning {
  import opened Common
  import opened Tsl
  import opened SqlReader

  // ---------------------------------------------------------------------------------------
  // The queries in question
  // ---------------------------------------------------------------------------------------

  predicate IsLiteral(n: Node) {
    n.StringLit? || n.NumberLit? || n.BoolLit? || n.TimestampLit? || n.DateLit?
  }

  predicate IsOperand(n: Node) {
    n.Identifier? || n.NullLit? || IsLiteral(n) || (n.Expr? && n.op.Minus? && IsOperand(n.right))
  }

  predicate AreOperands(values: seq<Node>) {
    forall i :: 0 <= i < |values| ==> IsOperand(values[i])
  }

  /** A comparison, IN, BETWEEN, LIKE or IS NULL over operands. */
  predicate IsTest(n: Node) {
    n.Expr? && IsOperand(n.left) &&
    match n.op
    case Compare(_) | Like | ILike => IsOperand(n.right)
    case In => n.right.ArrayLit? && AreOperands(n.right.values)
    case Between => n.right.ArrayLit? && |n.right.values| == 2 && AreOperands(n.right.values)
    case Is => n.right.NullLit?
    case _ => false
  }

  predicate IsQuery(n: Node) {
    n.Expr? &&
    match n.op
    case And | Or => IsQuery(n.left) && IsQuery(n.right)
    case Not => IsQuery(n.right)
    case _ => IsTest(n)
  }

  predicate HasEmptyIn(n: Node)
    requires IsQuery(n)
  {
    match n.op
    case And | Or => HasEmptyIn(n.left) || HasEmptyIn(n.right)
    case Not => HasEmptyIn(n.right)
    case In => n.right.values == []
    case _ => false
  }

  predicate IsSpecField(n: Node) {
    n.Identifier? && IsSpec(n.name)
  }

  /** A minus directly on a spec path. */
  predicate MinusOnSpec(n: Node)
    requires IsOperand(n)
  {
    n.Expr? && (IsSpecField(n.right) || MinusOnSpec(n.right))
  }

  predicate NegatesSpec(n: Node)
    requires IsQuery(n)
  {
    match n.op
    case And | Or => NegatesSpec(n.left) || NegatesSpec(n.right)
    case Not => NegatesSpec(n.right)
    case Is => MinusOnSpec(n.left)
    case In | Between => MinusOnSpec(n.left) || exists i :: 0 <= i < |n.right.values| && MinusOnSpec(n.right.values[i])
    case _ => MinusOnSpec(n.left) || MinusOnSpec(n.right)
  }

  /** A number, possibly negated. */
  predicate IsNumeric(n: Node) {
    n.NumberLit? || (n.Expr? && n.op.Minus? && IsNumeric(n.right))
  }

  /** Reads from the row alone, or NULL. */
  predicate BindsNothing(n: Node) {
    match n
    case NullLit => true
    case Identifier(name) => !IsLabel(name) && !IsCondition(name)
    case Expr(op, _, r) => op.Minus? && BindsNothing(r)
    case _ => false
  }

  /** The list meets numbers: at least one, and nothing else that binds an argument. */
  predicate AllNumeric(values: seq<Node>) {
    && (exists i :: 0 <= i < |values| && IsNumeric(values[i]))
    && (forall i :: 0 <= i < |values| ==> IsNumeric(values[i]) || BindsNothing(values[i]))
  }

  /** Where the left side of a test is read as a number. */
  predicate CastsLeft(n: Node)
    requires IsTest(n)
  {
    IsSpecField(n.left) &&
    match n.op
    case Compare(_) => IsNumeric(n.right)
    case In => AllNumeric(n.right.values)
    case Between => IsNumeric(n.right.values[0]) && IsNumeric(n.right.values[1])
    case _ => false
  }

  // ---------------------------------------------------------------------------------------
  // The SQL that is meant, and the SQL that is read
  // ---------------------------------------------------------------------------------------

  function PathOver(e: Sql, keys: seq<string>): Sql
    decreases keys
  {
    if keys == [] then e
    else if |keys| == 1 then GetText(e, keys[0])
    else PathOver(GetJson(e, keys[0]), keys[1..])
  }

  function ColumnSql(cfg: Config, name: string, k: nat): Sql {
    if IsLabel(name) then LabelValue(cfg.table, ArgRef(k))
    else if IsCondition(name) then ConditionValue(Subfield(name), cfg.table, ArgRef(k))
    else if IsSpec(name) then PathOver(SpecColumn, SpecKeys(name))
    else SqlColumn(cfg.table, TrimSpace(name))
  }

  /** With `asRead` a minus on a spec path binds to the column, as the tighter operator; else to the whole path. */
  function OperandSql(cfg: Config, n: Node, k: nat, asRead: bool): Sql
    requires IsOperand(n)
  {
    match n
    case Identifier(name) => ColumnSql(cfg, name, k)
    case NullLit => SqlNull
    case Expr(_, _, r) =>
      if asRead && IsSpecField(r) then PathOver(Negative(SpecColumn), SpecKeys(r.name))
      else Negative(OperandSql(cfg, r, k, asRead))
    case _ => ArgRef(k)
  }

  function Cast(e: Sql, numeric: bool): Sql {
    if numeric then CastNumeric(e) else e
  }

  function ItemsSql(cfg: Config, a: Node, k: nat, asRead: bool): seq<Sql>
    requires a.ArrayLit? && AreOperands(a.values)
  {
    seq(|a.values|, i requires 0 <= i < |a.values| => OperandSql(cfg, a.values[i], k + Offset(a, i), asRead))
  }

  /** How many arguments the items before the `i`-th bind. */
  function Offset(a: Node, i: nat): nat
    requires a.ArrayLit? && i <= |a.values|
  {
    |Flatten(ItemArgs(a)[..i])|
  }

  function TestSql(cfg: Config, n: Node, k: nat, asRead: bool): Sql
    requires IsTest(n)
  {
    var l := Cast(OperandSql(cfg, n.left, k, asRead), CastsLeft(n));
    var next := k + |Args(n.left)|;
    match n.op
    case Compare(cmp) =>
      Compared(cmp, l, Cast(OperandSql(cfg, n.right, next, asRead), IsSpecField(n.right) && IsNumeric(n.left)))
    case Like => Matches(false, l, OperandSql(cfg, n.right, next, asRead))
    case ILike => Matches(true, l, OperandSql(cfg, n.right, next, asRead))
    case In => InList(l, ItemsSql(cfg, n.right, next, asRead))
    case Between =>
      var items := ItemsSql(cfg, n.right, next, asRead);
      IsBetween(l, items[0], items[1])
    case _ => NullTest(l)
  }

  /** The clause for a query whose first placeholder has number `k`. */
  function QuerySql(cfg: Config, n: Node, k: nat, asRead: bool): Sql
    requires IsQuery(n)
  {
    match n.op
    case And => Both(QuerySql(cfg, n.left, k, asRead), QuerySql(cfg, n.right, k + |Args(n.left)|, asRead))
    case Or => Either(QuerySql(cfg, n.left, k, asRead), QuerySql(cfg, n.right, k + |Args(n.left)|, asRead))
    case Not => Negated(QuerySql(cfg, n.right, k, asRead))
    case _ => TestSql(cfg, n, k, asRead)
  }

  // ---------------------------------------------------------------------------------------
  // Reading operands
  // ---------------------------------------------------------------------------------------

  lemma Regroup3(a: seq<Token>, b: seq<Token>, c: seq<Token>)
    ensures a + b + c == a + (b + c)
  {
  }

  lemma Regroup4(a: seq<Token>, b: seq<Token>, c: seq<Token>, d: seq<Token>)
    ensures a + b + c + d == a + (b + (c + d))
  {
    Regroup3(a + b, c, d);
    Regroup3(a, b, c + d);
  }

  lemma Regroup6(a: seq<Token>, b: seq<Token>, c: seq<Token>, d: seq<Token>, e: seq<Token>, f: seq<Token>)
    ensures a + b + c + d + e + f == a + (b + (c + (d + (e + f))))
  {
    Regroup4(a + b + c, d, e, f);
    Regroup4(a, b, c, d + (e + f));
  }

  lemma Tail(t: Token, ts: seq<Token>)
    ensures ([t] + ts)[1..] == ts
  {
  }

  predicate PathNext(ts: seq<Token>) {
    ts != [] && (ts[0].Arrow? || ts[0].ArrowText?)
  }

  /** Nothing that binds tighter than AND follows. */
  predicate Ends(ts: seq<Token>) {
    ts == [] || ts[0] in {Close, Comma, AsNumeric, AndWord, OrWord}
  }

  /** Not even AND or OR follows. */
  predicate Stops(ts: seq<Token>) {
    ts == [] || ts[0] in {Close, Comma, AsNumeric}
  }

  lemma {:induction false} MorePathReads(e: Sql, keys: seq<string>, rest: seq<Token>, k: nat)
    requires !PathNext(rest)
    ensures MorePath(e, PathTokens(keys) + rest, k) == Read(PathOver(e, keys), rest, k)
    decreases keys
  {
    if keys == [] {
      assert PathTokens(keys) + rest == rest;
    } else {
      assert (PathTokens(keys) + rest)[1..] == PathTokens(keys)[1..] + rest;
      if |keys| > 1 {
        assert PathTokens(keys)[1..] == PathTokens(keys[1..]);
        MorePathReads(GetJson(e, keys[0]), keys[1..], rest, k);
      } else {
        assert PathTokens(keys)[1..] + rest == rest;
      }
    }
  }

  /** `ts` is closed: a minus in front, or a path behind, takes all of it. */
  ghost predicate ClosedAs(ts: seq<Token>, k: nat, e: Sql, next: nat) {
    forall rest {:trigger ReadMinus(ts + rest, k)} :: ReadMinus(ts + rest, k) == Read(e, rest, next)
  }

  /** In front of anything but a path arrow, `ts` reads as `e` and takes the placeholders from `k` up to `next`. */
  ghost predicate ReadsAs(ts: seq<Token>, k: nat, e: Sql, next: nat) {
    forall rest {:trigger ReadPath(ts + rest, k)} :: !PathNext(rest) ==> ReadPath(ts + rest, k) == Read(e, rest, next)
  }

  lemma ColumnClosed(cfg: Config, name: string, k: nat)
    requires !IsSpec(name)
    ensures ClosedAs(ColumnTokens(cfg, name), k, ColumnSql(cfg, name, k), k + |ColumnArgs(name)|)
  {
    forall rest
      ensures ReadMinus(ColumnTokens(cfg, name) + rest, k) ==
              Read(ColumnSql(cfg, name, k), rest, k + |ColumnArgs(name)|)
    {
      var ts := ColumnTokens(cfg, name) + rest;
      assert ReadMinus(ts, k) == ReadAtom(ts, k);
      assert ts[|ColumnTokens(cfg, name)|..] == rest;
    }
  }

  lemma LiteralClosed(t: Token, k: nat)
    requires t == Placeholder || t == NullWord
    ensures ClosedAs([t], k, if t == Placeholder then ArgRef(k) else SqlNull, if t == Placeholder then k + 1 else k)
  {
    forall rest
      ensures ReadMinus([t] + rest, k) ==
              Read(if t == Placeholder then ArgRef(k) else SqlNull, rest, if t == Placeholder then k + 1 else k)
    {
      Tail(t, rest);
      assert ReadMinus([t] + rest, k) == ReadAtom([t] + rest, k);
    }
  }

  /** Brackets close what reads as a path. */
  lemma BracketsClose(whole: seq<Token>, inner: seq<Token>, k: nat, e: Sql, next: nat)
    requires whole == [Open] + inner + [Close] && ReadsAs(inner, k, e, next)
    ensures ClosedAs(whole, k, e, next)
  {
    forall rest ensures ReadMinus(whole + rest, k) == Read(e, rest, next) {
      var body := inner + ([Close] + rest);
      Regroup4([Open], inner, [Close], rest);
      Tail(Open, body);
      Tail(Close, rest);
      assert ReadPath(body, k) == Read(e, [Close] + rest, next);
      PathToOr(body, k);
      assert ReadMinus([Open] + body, k) == ReadAtom([Open] + body, k);
    }
  }

  lemma ClosedReadsAs(ts: seq<Token>, k: nat, e: Sql, next: nat)
    requires ClosedAs(ts, k, e, next)
    ensures ReadsAs(ts, k, e, next)
  {
    forall rest | !PathNext(rest) ensures ReadPath(ts + rest, k) == Read(e, rest, next) {
      assert ReadMinus(ts + rest, k) == Read(e, rest, next);
    }
  }

  lemma PathReadsAs(keys: seq<string>, k: nat)
    ensures ReadsAs([Spec] + PathTokens(keys), k, PathOver(SpecColumn, keys), k)
  {
    forall rest | !PathNext(rest)
      ensures ReadPath([Spec] + PathTokens(keys) + rest, k) == Read(PathOver(SpecColumn, keys), rest, k)
    {
      var path := PathTokens(keys) + rest;
      Regroup3([Spec], PathTokens(keys), rest);
      Tail(Spec, path);
      assert ReadMinus([Spec] + path, k) == ReadAtom([Spec] + path, k);
      MorePathReads(SpecColumn, keys, rest, k);
    }
  }

  lemma NegatedClosedReads(ts: seq<Token>, k: nat, e: Sql, next: nat)
    requires ClosedAs(ts, k, e, next)
    ensures ReadsAs([MinusSign] + ts, k, Negative(e), next)
  {
    forall rest | !PathNext(rest) ensures ReadPath([MinusSign] + ts + rest, k) == Read(Negative(e), rest, next) {
      Regroup3([MinusSign], ts, rest);
      Tail(MinusSign, ts + rest);
      assert ReadMinus(ts + rest, k) == Read(e, rest, next);
    }
  }

  /** The minus binds to the column, before the path is taken. */
  lemma NegatedPathReads(keys: seq<string>, k: nat)
    ensures ReadsAs([MinusSign] + ([Spec] + PathTokens(keys)), k, PathOver(Negative(SpecColumn), keys), k)
  {
    forall rest | !PathNext(rest)
      ensures ReadPath([MinusSign] + ([Spec] + PathTokens(keys)) + rest, k) ==
              Read(PathOver(Negative(SpecColumn), keys), rest, k)
    {
      var path := PathTokens(keys) + rest;
      Regroup3([MinusSign], [Spec] + PathTokens(keys), rest);
      Regroup3([Spec], PathTokens(keys), rest);
      NegatedColumn(path, k);
      MorePathReads(Negative(SpecColumn), keys, rest, k);
    }
  }

  lemma NegatedColumn(path: seq<Token>, k: nat)
    ensures ReadPath([MinusSign] + ([Spec] + path), k) == MorePath(Negative(SpecColumn), path, k)
  {
    Tail(MinusSign, [Spec] + path);
    Tail(Spec, path);
    assert ReadMinus([Spec] + path, k) == ReadAtom([Spec] + path, k);
  }

  /** An operand other than a bare spec path is closed. */
  lemma {:induction false} OperandClosed(cfg: Config, n: Node, k: nat)
    requires IsOperand(n) && !IsSpecField(n)
    ensures ClosedAs(Emit(cfg, n), k, OperandSql(cfg, n, k, true), k + |Args(n)|)
    decreases n, 0
  {
    if n.Identifier? {
      ColumnClosed(cfg, n.name, k);
    } else if n.Expr? {
      NegatedOperandReads(cfg, n, k);
      assert [Open, MinusSign] == [Open] + [MinusSign];
      BracketsClose(Emit(cfg, n), [MinusSign] + Emit(cfg, n.right), k, OperandSql(cfg, n, k, true), k + |Args(n)|);
    } else {
      LiteralClosed(if n.NullLit? then NullWord else Placeholder, k);
    }
  }

  /** What a minus in front of an operand takes. */
  lemma {:induction false} NegatedOperandReads(cfg: Config, n: Node, k: nat)
    requires IsOperand(n) && n.Expr?
    ensures ReadsAs([MinusSign] + Emit(cfg, n.right), k, OperandSql(cfg, n, k, true), k + |Args(n)|)
    decreases n.right, 1
  {
    if IsSpecField(n.right) {
      NegatedPathReads(SpecKeys(n.right.name), k);
    } else {
      OperandClosed(cfg, n.right, k);
      NegatedClosedReads(Emit(cfg, n.right), k, OperandSql(cfg, n.right, k, true), k + |Args(n.right)|);
    }
  }

  lemma OperandReadsAs(cfg: Config, n: Node, k: nat)
    requires IsOperand(n)
    ensures ReadsAs(Emit(cfg, n), k, OperandSql(cfg, n, k, true), k + |Args(n)|)
  {
    if IsSpecField(n) {
      PathReadsAs(SpecKeys(n.name), k);
    } else {
      OperandClosed(cfg, n, k);
      ClosedReadsAs(Emit(cfg, n), k, OperandSql(cfg, n, k, true), k + |Args(n)|);
    }
  }

  /** An operand that nothing tighter follows is read the same at every level up to NOT. */
  lemma PathToNot(ts: seq<Token>, k: nat)
    requires ReadPath(ts, k).Failed? ==> !Begins(ts, NotWord)
    requires ReadPath(ts, k).Read? ==> Ends(ReadPath(ts, k).rest)
    ensures ReadNot(ts, k) == ReadPath(ts, k)
  {
    assert Begins(ts, NotWord) ==> ReadMinus(ts, k) == ReadAtom(ts, k) == Failed;
    assert ReadTest(ts, k) == ReadPath(ts, k);
    assert ReadComparison(ts, k) == ReadTest(ts, k);
    assert ReadIs(ts, k) == ReadComparison(ts, k);
  }

  lemma NotToOr(ts: seq<Token>, k: nat)
    requires ReadNot(ts, k).Read? ==> Stops(ReadNot(ts, k).rest)
    ensures ReadOr(ts, k) == ReadNot(ts, k)
  {
    assert ReadAnd(ts, k) == ReadNot(ts, k);
  }

  lemma PathToOr(ts: seq<Token>, k: nat)
    requires ReadPath(ts, k).Failed? ==> !Begins(ts, NotWord)
    requires ReadPath(ts, k).Read? ==> Stops(ReadPath(ts, k).rest)
    ensures ReadOr(ts, k) == ReadPath(ts, k)
  {
    PathToNot(ts, k);
    NotToOr(ts, k);
  }

  // ---------------------------------------------------------------------------------------
  // Reading tests
  // ---------------------------------------------------------------------------------------

  lemma SpecPathIsField(cfg: Config, n: Node)
    requires IsOperand(n)
    ensures IsSpecPath(Emit(cfg, n)) <==> IsSpecField(n)
  {
  }

  lemma {:induction false} NumericArgs(n: Node)
    requires IsOperand(n)
    ensures StartsWithNumber(Args(n)) <==> IsNumeric(n)
    ensures IsNumeric(n) ==> |Args(n)| == 1
    ensures Args(n) == [] <==> BindsNothing(n)
    ensures |Args(n)| <= 1
  {
    if n.Expr? { NumericArgs(n.right); }
  }

  lemma PathIsNoNot(ts: seq<Token>, k: nat)
    requires ReadPath(ts, k).Read?
    ensures !Begins(ts, NotWord)
  {
    assert Begins(ts, NotWord) ==> ReadMinus(ts, k) == ReadAtom(ts, k) == Failed;
  }

  /** Up to the end of a clause, `ts` reads as `e` and takes the placeholders from `k` to `next`, or cannot be read. */
  ghost predicate ReadsClause(ts: seq<Token>, k: nat, failed: bool, e: Sql, next: nat) {
    forall rest {:trigger ReadOr(ts + rest, k)} :: Stops(rest) ==>
      ReadOr(ts + rest, k) == if failed then Failed else Read(e, rest, next)
  }

  /** An operand inside a cast. */
  lemma CastedReadsAs(ts: seq<Token>, k: nat, e: Sql, next: nat)
    requires ReadsAs(ts, k, e, next)
    ensures ReadsAs([CastOpen] + ts + [AsNumeric], k, CastNumeric(e), next)
  {
    forall rest | !PathNext(rest)
      ensures ReadPath([CastOpen] + ts + [AsNumeric] + rest, k) == Read(CastNumeric(e), rest, next)
    {
      var inner := ts + ([AsNumeric] + rest);
      Regroup4([CastOpen], ts, [AsNumeric], rest);
      Tail(CastOpen, inner);
      Tail(AsNumeric, rest);
      assert ReadPath(inner, k) == Read(e, [AsNumeric] + rest, next);
      PathToOr(inner, k);
      assert ReadMinus([CastOpen] + inner, k) == ReadAtom([CastOpen] + inner, k);
    }
  }

  lemma CastReadsAs(cfg: Config, n: Node, numeric: bool, k: nat)
    requires IsOperand(n)
    ensures ReadsAs(Casted(Emit(cfg, n), numeric), k, Cast(OperandSql(cfg, n, k, true), IsSpecField(n) && numeric),
                    k + |Args(n)|)
  {
    SpecPathIsField(cfg, n);
    OperandReadsAs(cfg, n, k);
    if IsSpecField(n) && numeric { CastedReadsAs(Emit(cfg, n), k, OperandSql(cfg, n, k, true), k + |Args(n)|); }
  }

  lemma ComparisonReads(
    whole: seq<Token>, left: seq<Token>, cmp: Comparison, right: seq<Token>, k: nat, l: Sql, k1: nat, r: Sql, k2: nat,
    failed: bool, e: Sql)
    requires ReadsAs(left, k, l, k1) && ReadsAs(right, k1, r, k2)
    requires whole == TestText(left, CompareSign(cmp), right)
    requires !failed && e == Compared(cmp, l, r)
    ensures ReadsClause(whole, k, failed, e, k2)
  {
    forall rest | Stops(rest)
      ensures ReadOr(left + [CompareSign(cmp)] + right + rest, k) == Read(Compared(cmp, l, r), rest, k2)
    {
      var tail, after := right + rest, [CompareSign(cmp)] + (right + rest);
      var ts := left + after;
      Regroup4(left, [CompareSign(cmp)], right, rest);
      Tail(CompareSign(cmp), tail);
      PathIsNoNot(ts, k);
      assert ReadTest(ts, k) == Read(l, after, k1) && ReadTest(tail, k1) == Read(r, rest, k2);
      assert ReadComparison(ts, k) == Read(Compared(cmp, l, r), rest, k2);
      assert ReadIs(ts, k) == ReadComparison(ts, k);
      NotToOr(ts, k);
    }
  }

  lemma NullReads(whole: seq<Token>, left: seq<Token>, k: nat, l: Sql, k1: nat, failed: bool, e: Sql)
    requires ReadsAs(left, k, l, k1)
    requires whole == left + [IsNullWords]
    requires !failed && e == NullTest(l)
    ensures ReadsClause(whole, k, failed, e, k1)
  {
    forall rest | Stops(rest) ensures ReadOr(left + [IsNullWords] + rest, k) == Read(NullTest(l), rest, k1) {
      var after := [IsNullWords] + rest;
      var ts := left + after;
      Regroup3(left, [IsNullWords], rest);
      Tail(IsNullWords, rest);
      PathIsNoNot(ts, k);
      assert ReadTest(ts, k) == Read(l, after, k1) && ReadComparison(ts, k) == Read(l, after, k1);
      assert MoreIs(NullTest(l), rest, k1) == Read(NullTest(l), rest, k1);
      assert ReadIs(ts, k) == MoreIs(l, after, k1);
      NotToOr(ts, k);
    }
  }

  /** What follows IN, BETWEEN or LIKE decides the test. */
  lemma TestToOr(ts: seq<Token>, k: nat)
    requires ReadPath(ts, k).Read? && (ReadTest(ts, k).Read? ==> Stops(ReadTest(ts, k).rest))
    ensures ReadOr(ts, k) == ReadTest(ts, k)
  {
    PathIsNoNot(ts, k);
    assert ReadComparison(ts, k) == ReadTest(ts, k);
    assert ReadIs(ts, k) == ReadComparison(ts, k);
    NotToOr(ts, k);
  }

  function PatternWord(insensitive: bool): Token { if insensitive then ILikeWord else LikeWord }

  lemma PatternReads(
    whole: seq<Token>, left: seq<Token>, insensitive: bool, right: seq<Token>, k: nat, l: Sql, k1: nat, r: Sql, k2: nat,
    failed: bool, e: Sql)
    requires ReadsAs(left, k, l, k1) && ReadsAs(right, k1, r, k2)
    requires whole == TestText(left, PatternWord(insensitive), right)
    requires !failed && e == Matches(insensitive, l, r)
    ensures ReadsClause(whole, k, failed, e, k2)
  {
    var word := PatternWord(insensitive);
    forall rest | Stops(rest)
      ensures ReadOr(left + [word] + right + rest, k) == Read(Matches(insensitive, l, r), rest, k2) {
      var tail, after := right + rest, [word] + (right + rest);
      var ts := left + after;
      Regroup4(left, [word], right, rest);
      Tail(word, tail);
      assert ReadPath(ts, k) == Read(l, after, k1);
      assert ReadPath(tail, k1) == Read(r, rest, k2);
      assert ReadTest(ts, k) == ReadPattern(insensitive, l, tail, k1);
      TestToOr(ts, k);
    }
  }

  lemma BoundsRead(
    whole: seq<Token>, left: seq<Token>, low: seq<Token>, high: seq<Token>, k: nat, l: Sql, k1: nat, lo: Sql, k2: nat,
    hi: Sql, k3: nat, failed: bool, e: Sql)
    requires ReadsAs(left, k, l, k1) && ReadsAs(low, k1, lo, k2) && ReadsAs(high, k2, hi, k3)
    requires whole == RangeText(left, low, high)
    requires !failed && e == IsBetween(l, lo, hi)
    ensures ReadsClause(whole, k, failed, e, k3)
  {
    forall rest | Stops(rest) ensures ReadOr(whole + rest, k) == Read(IsBetween(l, lo, hi), rest, k3) {
      var bounds := low + ([AndWord] + (high + rest));
      var ts := left + ([BetweenWord] + bounds);
      Regroup6(left, [BetweenWord], low, [AndWord], high, rest);
      assert ReadPath(ts, k) == Read(l, [BetweenWord] + bounds, k1);
      BoundsBody(low, high, rest, l, k1, lo, k2, hi, k3);
      Tail(BetweenWord, bounds);
      TestToOr(ts, k);
    }
  }

  lemma BoundsBody(
    low: seq<Token>, high: seq<Token>, rest: seq<Token>, l: Sql, k1: nat, lo: Sql, k2: nat, hi: Sql, k3: nat)
    requires ReadsAs(low, k1, lo, k2) && ReadsAs(high, k2, hi, k3) && Stops(rest)
    ensures ReadBounds(l, low + ([AndWord] + (high + rest)), k1) == Read(IsBetween(l, lo, hi), rest, k3)
  {
    var middle := [AndWord] + (high + rest);
    Tail(AndWord, high + rest);
    assert ReadPath(low + middle, k1) == Read(lo, middle, k2) && ReadPath(high + rest, k2) == Read(hi, rest, k3);
  }

  /** In front of the closing bracket `items` reads as `list`, or cannot be read. */
  ghost predicate ItemsReadAs(items: seq<Token>, k: nat, failed: bool, list: seq<Sql>, next: nat) {
    forall rest {:trigger ReadItems(items + rest, k)} :: Begins(rest, Close) ==>
      ReadItems(items + rest, k) == if failed then Failed else Read(list, rest, next)
  }

  lemma ListReads(
    whole: seq<Token>, left: seq<Token>, items: seq<Token>, k: nat, l: Sql, k1: nat, failed: bool, list: seq<Sql>,
    k2: nat, e: Sql)
    requires ReadsAs(left, k, l, k1) && ItemsReadAs(items, k1, failed, list, k2)
    requires whole == ListText(left, items)
    requires e == InList(l, list)
    ensures ReadsClause(whole, k, failed, e, k2)
  {
    forall rest | Stops(rest)
      ensures ReadOr(whole + rest, k) == if failed then Failed else Read(InList(l, list), rest, k2) {
      var inner := [Open] + (items + ([Close] + rest));
      var ts := left + ([InWord] + inner);
      ListRegroup(left, items, rest);
      assert ReadPath(ts, k) == Read(l, [InWord] + inner, k1);
      ListBody(items, rest, l, k1, failed, list, k2);
      Tail(InWord, inner);
      TestToOr(ts, k);
    }
  }

  lemma ListBody(items: seq<Token>, rest: seq<Token>, l: Sql, k1: nat, failed: bool, list: seq<Sql>, k2: nat)
    requires ItemsReadAs(items, k1, failed, list, k2) && Stops(rest)
    ensures ReadInList(l, [Open] + (items + ([Close] + rest)), k1) ==
            if failed then Failed else Read(InList(l, list), rest, k2)
  {
    var closing := [Close] + rest;
    Tail(Open, items + closing);
    Tail(Close, rest);
    assert ReadItems(items + closing, k1) == if failed then Failed else Read(list, closing, k2);
  }

  lemma ListRegroup(left: seq<Token>, items: seq<Token>, rest: seq<Token>)
    ensures left + [InWord, Open] + items + [Close] + rest == left + ([InWord] + ([Open] + (items + ([Close] + rest))))
  {
    assert [InWord, Open] == [InWord] + [Open];
    Regroup3(left, [InWord], [Open]);
    Regroup6(left, [InWord], [Open], items, [Close], rest);
  }

  /** The clause for a test is what its text reads as. */
  ghost predicate TestReads(cfg: Config, n: Node, k: nat)
    requires IsTest(n)
  {
    ReadsClause(Emit(cfg, n), k, HasEmptyIn(n), TestSql(cfg, n, k, true), k + |Args(n)|)
  }

  lemma CompareReads(cfg: Config, n: Node, k: nat)
    requires IsTest(n) && n.op.Compare?
    ensures TestReads(cfg, n, k)
  {
    var l, r, k1 := n.left, n.right, k + |Args(n.left)|;
    SideReads(cfg, l, r, k);
    SideReads(cfg, r, l, k1);
    CompareShape(cfg, n, k);
    ComparisonReads(Emit(cfg, n), SideText(cfg, l, r), n.op.cmp, SideText(cfg, r, l), k, SideSql(cfg, l, r, k), k1,
                    SideSql(cfg, r, l, k1), k + |Args(n)|, HasEmptyIn(n), TestSql(cfg, n, k, true));
  }

  /** One side of a comparison, cast where it is a spec path and the other side is a number. */
  function SideText(cfg: Config, side: Node, other: Node): seq<Token> {
    Casted(Emit(cfg, side), StartsWithNumber(Args(other)))
  }

  function SideSql(cfg: Config, side: Node, other: Node, k: nat): Sql
    requires IsOperand(side) && IsOperand(other)
  {
    Cast(OperandSql(cfg, side, k, true), IsSpecField(side) && IsNumeric(other))
  }

  lemma CompareShape(cfg: Config, n: Node, k: nat)
    requires IsTest(n) && n.op.Compare?
    ensures Emit(cfg, n) ==
            TestText(SideText(cfg, n.left, n.right), CompareSign(n.op.cmp), SideText(cfg, n.right, n.left))
    ensures TestSql(cfg, n, k, true) ==
            Compared(n.op.cmp, SideSql(cfg, n.left, n.right, k), SideSql(cfg, n.right, n.left, k + |Args(n.left)|))
  {
  }

  lemma SideReads(cfg: Config, side: Node, other: Node, k: nat)
    requires IsOperand(side) && IsOperand(other)
    ensures ReadsAs(SideText(cfg, side, other), k, SideSql(cfg, side, other, k), k + |Args(side)|)
  {
    NumericArgs(other);
    CastReadsAs(cfg, side, StartsWithNumber(Args(other)), k);
  }

  lemma MatchReads(cfg: Config, n: Node, k: nat)
    requires IsTest(n) && (n.op.Like? || n.op.ILike?)
    ensures TestReads(cfg, n, k)
  {
    var l, r, k1 := n.left, n.right, k + |Args(n.left)|;
    OperandReadsAs(cfg, l, k);
    OperandReadsAs(cfg, r, k1);
    PatternReads(Emit(cfg, n), Emit(cfg, l), n.op.ILike?, Emit(cfg, r), k, OperandSql(cfg, l, k, true), k1,
                 OperandSql(cfg, r, k1, true),
                 k + |Args(n)|, HasEmptyIn(n), TestSql(cfg, n, k, true));
  }

  lemma NullTestReads(cfg: Config, n: Node, k: nat)
    requires IsTest(n) && n.op.Is?
    ensures TestReads(cfg, n, k)
  {
    OperandReadsAs(cfg, n.left, k);
    NullReads(Emit(cfg, n), Emit(cfg, n.left), k, OperandSql(cfg, n.left, k, true), k + |Args(n)|, HasEmptyIn(n),
              TestSql(cfg, n, k, true));
  }

  lemma BetweenReads(cfg: Config, n: Node, k: nat)
    requires IsTest(n) && n.op.Between?
    ensures TestReads(cfg, n, k)
  {
    var l, a, k1 := n.left, n.right, k + |Args(n.left)|;
    var e := Cast(OperandSql(cfg, l, k, true), CastsLeft(n));
    LeftOfBetweenReads(cfg, n, k);
    PairOfBoundsReads(cfg, Emit(cfg, n), Casted(Emit(cfg, l), BothNumbers(a)), a, k, e, k1, HasEmptyIn(n),
                      TestSql(cfg, n, k, true));
    assert TestSql(cfg, n, k, true) == IsBetween(e, ItemsSql(cfg, a, k1, true)[0], ItemsSql(cfg, a, k1, true)[1]);
  }

  predicate BothNumbers(a: Node)
    requires a.ArrayLit? && |a.values| == 2
  {
    StartsWithNumber(Args(a.values[0])) && StartsWithNumber(Args(a.values[1]))
  }

  lemma LeftOfBetweenReads(cfg: Config, n: Node, k: nat)
    requires IsTest(n) && n.op.Between?
    ensures ReadsAs(Casted(Emit(cfg, n.left), BothNumbers(n.right)), k,
                    Cast(OperandSql(cfg, n.left, k, true), CastsLeft(n)), k + |Args(n.left)|)
  {
    NumericArgs(n.right.values[0]);
    NumericArgs(n.right.values[1]);
    CastReadsAs(cfg, n.left, BothNumbers(n.right), k);
  }

  lemma PairOfBoundsReads(
    cfg: Config, whole: seq<Token>, left: seq<Token>, a: Node, k: nat, l: Sql, k1: nat, failed: bool, e: Sql)
    requires ReadsAs(left, k, l, k1) && a.ArrayLit? && |a.values| == 2 && AreOperands(a.values)
    requires whole == RangeText(left, Emit(cfg, a.values[0]), Emit(cfg, a.values[1]))
    requires !failed && e == IsBetween(l, ItemsSql(cfg, a, k1, true)[0], ItemsSql(cfg, a, k1, true)[1])
    ensures ReadsClause(whole, k, failed, e, k1 + |Args(a)|)
  {
    var low, high := a.values[0], a.values[1];
    var k2 := k1 + |Args(low)|;
    OperandReadsAs(cfg, low, k1);
    OperandReadsAs(cfg, high, k2);
    PairOffsets(a);
    BoundsRead(whole, left, Emit(cfg, low), Emit(cfg, high), k, l, k1,
               OperandSql(cfg, low, k1, true), k2, OperandSql(cfg, high, k2, true), k1 + |Args(a)|, failed, e);
  }

  lemma PairOffsets(a: Node)
    requires a.ArrayLit? && |a.values| == 2
    ensures Offset(a, 0) == 0 && Offset(a, 1) == |Args(a.values[0])|
    ensures |Args(a)| == |Args(a.values[0])| + |Args(a.values[1])|
  {
    OffsetMore(a, 0);
    OffsetMore(a, 1);
    assert ItemArgs(a)[..2] == ItemArgs(a);
  }

  lemma OffsetMore(a: Node, i: nat)
    requires a.ArrayLit? && i < |a.values|
    ensures Offset(a, i + 1) == Offset(a, i) + |Args(a.values[i])|
  {
    FlattenMore(ItemArgs(a)[..i], Args(a.values[i]));
    assert ItemArgs(a)[..i + 1] == ItemArgs(a)[..i] + [Args(a.values[i])];
  }

  /** Each part reads as its expression, and takes the placeholders up to the next mark. */
  ghost predicate PartsRead(parts: seq<seq<Token>>, sql: seq<Sql>, marks: seq<nat>) {
    |sql| == |parts| && |marks| == |parts| + 1 &&
    forall i :: 0 <= i < |parts| ==> ReadsAs(parts[i], marks[i], sql[i], marks[i + 1])
  }

  /** The items from the `i`-th on. */
  lemma {:induction false} ItemsRead(parts: seq<seq<Token>>, sql: seq<Sql>, marks: seq<nat>, i: nat, rest: seq<Token>)
    requires PartsRead(parts, sql, marks) && i < |parts| && Begins(rest, Close)
    ensures ReadItems(JoinItems(parts[i..]) + rest, marks[i]) == Read(sql[i..], rest, marks[|parts|])
    decreases |parts| - i
  {
    if i == |parts| - 1 {
      assert parts[i..] == [parts[i]] && sql[i..] == [sql[i]];
      LastItemReads(parts[i], marks[i], sql[i], marks[i + 1], rest);
    } else {
      ItemsRead(parts, sql, marks, i + 1, rest);
      JoinFront(parts, i, rest);
      assert sql[i..] == [sql[i]] + sql[i + 1..];
      FirstItemReads(parts[i], marks[i], sql[i], marks[i + 1], JoinItems(parts[i + 1..]) + rest);
    }
  }

  /** The numbers of the first placeholders of the items, and of what follows them. */
  function Marks(a: Node, k: nat): (marks: seq<nat>)
    requires a.ArrayLit?
    ensures |marks| == |a.values| + 1 && forall i :: 0 <= i <= |a.values| ==> marks[i] == k + Offset(a, i)
  {
    seq(|a.values| + 1, i requires 0 <= i <= |a.values| => k + Offset(a, i))
  }

  lemma ArrayPartsRead(cfg: Config, a: Node, k: nat) returns (marks: seq<nat>)
    requires a.ArrayLit? && AreOperands(a.values)
    ensures PartsRead(ItemTokens(cfg, a), ItemsSql(cfg, a, k, true), marks)
    ensures marks[0] == k && marks[|a.values|] == k + |Args(a)|
  {
    marks := Marks(a, k);
    var parts, sql := ItemTokens(cfg, a), ItemsSql(cfg, a, k, true);
    forall i | 0 <= i < |parts| ensures ReadsAs(parts[i], marks[i], sql[i], marks[i + 1]) { PartReads(cfg, a, k, i); }
    assert ItemArgs(a)[..|a.values|] == ItemArgs(a);
  }

  lemma PartReads(cfg: Config, a: Node, k: nat, i: nat)
    requires a.ArrayLit? && AreOperands(a.values) && i < |a.values|
    ensures ReadsAs(ItemTokens(cfg, a)[i], k + Offset(a, i), ItemsSql(cfg, a, k, true)[i], k + Offset(a, i + 1))
  {
    OffsetMore(a, i);
    OperandReadsAs(cfg, a.values[i], k + Offset(a, i));
  }

  lemma JoinFront(parts: seq<seq<Token>>, i: nat, rest: seq<Token>)
    requires i < |parts| - 1
    ensures JoinItems(parts[i..]) + rest == parts[i] + ([Comma] + (JoinItems(parts[i + 1..]) + rest))
  {
    assert parts[i..][1..] == parts[i + 1..];
    Regroup4(parts[i], [Comma], JoinItems(parts[i + 1..]), rest);
  }

  lemma LastItemReads(item: seq<Token>, k: nat, e: Sql, next: nat, rest: seq<Token>)
    requires ReadsAs(item, k, e, next) && Begins(rest, Close)
    ensures ReadItems(item + rest, k) == Read([e], rest, next)
  {
    assert ReadPath(item + rest, k) == Read(e, rest, next);
    PathToOr(item + rest, k);
  }

  lemma FirstItemReads(item: seq<Token>, k: nat, e: Sql, next: nat, tail: seq<Token>)
    requires ReadsAs(item, k, e, next) && ReadItems(tail, next).Read?
    ensures var more := ReadItems(tail, next);
            ReadItems(item + ([Comma] + tail), k) == Read([e] + more.value, more.rest, more.next)
  {
    Tail(Comma, tail);
    assert ReadPath(item + ([Comma] + tail), k) == Read(e, [Comma] + tail, next);
    PathToOr(item + ([Comma] + tail), k);
  }

  predicate NumericPrefix(values: seq<Node>, n: nat)
    requires n <= |values|
  {
    (exists i :: 0 <= i < n && IsNumeric(values[i])) &&
      (forall i :: 0 <= i < n ==> IsNumeric(values[i]) || BindsNothing(values[i]))
  }

  lemma {:induction false} NumericList(a: Node, n: nat)
    requires a.ArrayLit? && AreOperands(a.values) && n <= |a.values|
    ensures NumericPrefix(a.values, n) <==> AllNumbers(Flatten(ItemArgs(a)[..n]))
  {
    if n > 0 {
      NumericList(a, n - 1);
      NumericListMore(a, n - 1);
    }
  }

  lemma NumericListMore(a: Node, n: nat)
    requires a.ArrayLit? && AreOperands(a.values) && n < |a.values|
    requires NumericPrefix(a.values, n) <==> AllNumbers(Flatten(ItemArgs(a)[..n]))
    ensures NumericPrefix(a.values, n + 1) <==> AllNumbers(Flatten(ItemArgs(a)[..n + 1]))
  {
    var last := a.values[n];
    NothingBound(a, n);
    NumericArgs(last);
    FlattenMore(ItemArgs(a)[..n], Args(last));
    assert ItemArgs(a)[..n + 1] == ItemArgs(a)[..n] + [Args(last)];
    AllNumbersAppend(Flatten(ItemArgs(a)[..n]), Args(last));
    NumericPrefixMore(a.values, n);
  }

  lemma NumericPrefixMore(values: seq<Node>, n: nat)
    requires AreOperands(values) && n < |values|
    ensures NumericPrefix(values, n + 1) <==>
              (NumericPrefix(values, n) || forall i :: 0 <= i < n ==> BindsNothing(values[i])) &&
              (IsNumeric(values[n]) || (BindsNothing(values[n]) && NumericPrefix(values, n)))
  {
    forall i | 0 <= i < n ensures !(IsNumeric(values[i]) && BindsNothing(values[i])) { NumericArgs(values[i]); }
  }

  lemma AllNumbersAppend(a: seq<Arg>, b: seq<Arg>)
    requires |b| <= 1
    ensures AllNumbers(a + b) <==> (a == [] || AllNumbers(a)) && (b == [] || b[0].Number?) && (a != [] || b != [])
  {
    assert b != [] ==> (a + b)[|a|] == b[0];
    assert forall i :: 0 <= i < |a| ==> (a + b)[i] == a[i];
  }

  lemma NumericValues(a: Node)
    requires a.ArrayLit? && AreOperands(a.values)
    ensures AllNumeric(a.values) <==> AllNumbers(Args(a))
  {
    NumericList(a, |a.values|);
    assert ItemArgs(a)[..|a.values|] == ItemArgs(a);
  }

  lemma {:induction false} NothingBound(a: Node, n: nat)
    requires a.ArrayLit? && AreOperands(a.values) && n <= |a.values|
    ensures Flatten(ItemArgs(a)[..n]) == [] <==> forall i :: 0 <= i < n ==> BindsNothing(a.values[i])
  {
    if n > 0 {
      NothingBound(a, n - 1);
      NumericArgs(a.values[n - 1]);
      FlattenMore(ItemArgs(a)[..n - 1], Args(a.values[n - 1]));
      assert ItemArgs(a)[..n] == ItemArgs(a)[..n - 1] + [Args(a.values[n - 1])];
    }
  }

  /** An IN list is read back unless it is empty, which SQL has no words for. */
  lemma InReads(cfg: Config, n: Node, k: nat)
    requires IsTest(n) && n.op.In?
    ensures TestReads(cfg, n, k)
  {
    LeftOfInReads(cfg, n, k);
    ItemsOfInRead(cfg, n, k);
    InShape(cfg, n, k);
    ListReads(Emit(cfg, n), LeftText(cfg, n), ItemsText(cfg, n.right), k, LeftSql(cfg, n, k), k + |Args(n.left)|,
              HasEmptyIn(n),
              ItemsSql(cfg, n.right, k + |Args(n.left)|, true), k + |Args(n)|, TestSql(cfg, n, k, true));
  }

  function LeftText(cfg: Config, n: Node): seq<Token>
    requires n.Expr?
  {
    Casted(Emit(cfg, n.left), AllNumbers(Args(n.right)))
  }

  function LeftSql(cfg: Config, n: Node, k: nat): Sql
    requires IsTest(n)
  {
    Cast(OperandSql(cfg, n.left, k, true), CastsLeft(n))
  }

  function ItemsText(cfg: Config, a: Node): seq<Token>
    requires a.ArrayLit?
  {
    JoinItems(ItemTokens(cfg, a))
  }

  lemma InShape(cfg: Config, n: Node, k: nat)
    requires IsTest(n) && n.op.In?
    ensures Emit(cfg, n) == ListText(LeftText(cfg, n), ItemsText(cfg, n.right))
    ensures TestSql(cfg, n, k, true) == InList(LeftSql(cfg, n, k), ItemsSql(cfg, n.right, k + |Args(n.left)|, true))
  {
    InClause(cfg, n, k, true);
  }

  lemma InClause(cfg: Config, n: Node, k: nat, asRead: bool)
    requires IsTest(n) && n.op.In?
    ensures TestSql(cfg, n, k, asRead) ==
            InList(Cast(OperandSql(cfg, n.left, k, asRead), CastsLeft(n)),
                   ItemsSql(cfg, n.right, k + |Args(n.left)|, asRead))
  {
  }

  lemma ItemsOfInRead(cfg: Config, n: Node, k: nat)
    requires IsTest(n) && n.op.In?
    ensures ItemsReadAs(ItemsText(cfg, n.right), k + |Args(n.left)|, HasEmptyIn(n),
                        ItemsSql(cfg, n.right, k + |Args(n.left)|, true), k + |Args(n)|)
  {
    ListItemsRead(cfg, n.right, k + |Args(n.left)|);
  }

  lemma LeftOfInReads(cfg: Config, n: Node, k: nat)
    requires IsTest(n) && n.op.In?
    ensures ReadsAs(LeftText(cfg, n), k, LeftSql(cfg, n, k), k + |Args(n.left)|)
  {
    NumericValues(n.right);
    CastReadsAs(cfg, n.left, AllNumbers(Args(n.right)), k);
  }

  lemma ListItemsRead(cfg: Config, a: Node, k: nat)
    requires a.ArrayLit? && AreOperands(a.values)
    ensures ItemsReadAs(JoinItems(ItemTokens(cfg, a)), k, a.values == [], ItemsSql(cfg, a, k, true), k + |Args(a)|)
  {
    forall rest | Begins(rest, Close)
      ensures ReadItems(JoinItems(ItemTokens(cfg, a)) + rest, k) ==
              if a.values == [] then Failed else Read(ItemsSql(cfg, a, k, true), rest, k + |Args(a)|)
    {
      if a.values == [] {
        assert JoinItems(ItemTokens(cfg, a)) + rest == rest;
        NothingReads(rest, k);
      } else {
        var parts, sql := ItemTokens(cfg, a), ItemsSql(cfg, a, k, true);
        var marks := ArrayPartsRead(cfg, a, k);
        ItemsRead(parts, sql, marks, 0, rest);
        assert parts[0..] == parts && sql[0..] == sql;
      }
    }
  }

  lemma NothingReads(ts: seq<Token>, k: nat)
    requires Begins(ts, Close)
    ensures ReadItems(ts, k) == Failed
  {
    assert ReadMinus(ts, k) == ReadAtom(ts, k) == Failed;
    assert ReadPath(ts, k) == Failed;
    PathToOr(ts, k);
  }

  lemma TestRead(cfg: Config, n: Node, k: nat)
    requires IsTest(n)
    ensures TestReads(cfg, n, k)
  {
    match n.op
    case Compare(_) => CompareReads(cfg, n, k);
    case In => InReads(cfg, n, k);
    case Between => BetweenReads(cfg, n, k);
    case Is => NullTestReads(cfg, n, k);
    case _ => MatchReads(cfg, n, k);
  }

  // ---------------------------------------------------------------------------------------
  // Reading queries
  // ---------------------------------------------------------------------------------------

  function Unbracketed(r: Reading<Sql>, rest: seq<Token>): Reading<Sql> {
    if r.Failed? then Failed else Read(r.value, rest, r.next)
  }

  predicate UpToClose(r: Reading<Sql>, rest: seq<Token>) {
    r.Read? ==> r.rest == [Close] + rest
  }

  lemma BracketsRead(inner: seq<Token>, rest: seq<Token>, k: nat)
    requires Ends(rest) && UpToClose(ReadOr(inner + ([Close] + rest), k), rest)
    ensures ReadNot([Open] + inner + [Close] + rest, k) == Unbracketed(ReadOr(inner + ([Close] + rest), k), rest)
  {
    var ts, body := [Open] + inner + [Close] + rest, inner + ([Close] + rest);
    assert ts == [Open] + body;
    assert ts[1..] == body && ([Close] + rest)[1..] == rest;
    assert ReadAtom(ts, k) == Unbracketed(ReadOr(body, k), rest);
    assert ReadMinus(ts, k) == ReadAtom(ts, k);
    assert ReadPath(ts, k) == ReadMinus(ts, k);
    PathToNot(ts, k);
  }

  /** So does the bracketed clause, as an operand of NOT, AND and OR. */
  lemma BracketedClause(ts: seq<Token>, k: nat, failed: bool, e: Sql, next: nat, rest: seq<Token>)
    requires ReadsClause(ts, k, failed, e, next) && Ends(rest)
    ensures ReadNot([Open] + ts + [Close] + rest, k) == if failed then Failed else Read(e, rest, next)
  {
    assert ReadOr(ts + ([Close] + rest), k) == if failed then Failed else Read(e, [Close] + rest, next);
    BracketsRead(ts, rest, k);
  }

  lemma PairRegroup(left: seq<Token>, word: Token, right: seq<Token>, rest: seq<Token>)
    ensures PairText(left, word, right) + rest == [Open] + left + [Close] + ([word] + ([Open] + right + [Close] + rest))
  {
  }

  lemma BothRead(
    whole: seq<Token>, left: seq<Token>, right: seq<Token>, k: nat, noLeft: bool, l: Sql, k1: nat, noRight: bool,
    r: Sql, k2: nat,
    failed: bool, e: Sql)
    requires ReadsClause(left, k, noLeft, l, k1) && ReadsClause(right, k1, noRight, r, k2)
    requires whole == PairText(left, AndWord, right)
    requires failed == (noLeft || noRight) && e == Both(l, r)
    ensures ReadsClause(whole, k, failed, e, k2)
  {
    forall rest | Stops(rest)
      ensures ReadOr(whole + rest, k) == if noLeft || noRight then Failed else Read(Both(l, r), rest, k2)
    {
      var second := [Open] + right + [Close] + rest;
      var tail := [AndWord] + second;
      var ts := [Open] + left + [Close] + tail;
      PairRegroup(left, AndWord, right, rest);
      Tail(AndWord, second);
      BracketedClause(left, k, noLeft, l, k1, tail);
      BracketedClause(right, k1, noRight, r, k2, rest);
      assert MoreAnd(Both(l, r), rest, k2) == Read(Both(l, r), rest, k2);
      assert ReadAnd(ts, k) == if noLeft then Failed else MoreAnd(l, tail, k1);
    }
  }

  lemma EitherRead(
    whole: seq<Token>, left: seq<Token>, right: seq<Token>, k: nat, noLeft: bool, l: Sql, k1: nat, noRight: bool,
    r: Sql, k2: nat,
    failed: bool, e: Sql)
    requires ReadsClause(left, k, noLeft, l, k1) && ReadsClause(right, k1, noRight, r, k2)
    requires whole == PairText(left, OrWord, right)
    requires failed == (noLeft || noRight) && e == Either(l, r)
    ensures ReadsClause(whole, k, failed, e, k2)
  {
    forall rest | Stops(rest)
      ensures ReadOr(whole + rest, k) == if noLeft || noRight then Failed else Read(Either(l, r), rest, k2)
    {
      var second := [Open] + right + [Close] + rest;
      var tail := [OrWord] + second;
      var ts := [Open] + left + [Close] + tail;
      PairRegroup(left, OrWord, right, rest);
      Tail(OrWord, second);
      BracketedClause(left, k, noLeft, l, k1, tail);
      BracketedClause(right, k1, noRight, r, k2, rest);
      assert ReadAnd(ts, k) == if noLeft then Failed else Read(l, tail, k1);
      assert ReadAnd(second, k1) == ReadNot(second, k1);
      assert MoreOr(Either(l, r), rest, k2) == Read(Either(l, r), rest, k2);
    }
  }

  lemma NegatedRead(whole: seq<Token>, inner: seq<Token>, k: nat, failed: bool, e: Sql, next: nat)
    requires ReadsClause(inner, k, failed, e, next)
    requires whole == [NotWord, Open] + inner + [Close]
    ensures ReadsClause(whole, k, failed, Negated(e), next)
  {
    forall rest | Stops(rest)
      ensures ReadOr([NotWord, Open] + inner + [Close] + rest, k) ==
              if failed then Failed else Read(Negated(e), rest, next)
    {
      var body := [Open] + inner + [Close] + rest;
      var ts := [NotWord] + body;
      assert [NotWord, Open] + inner + [Close] + rest == ts;
      assert ts[1..] == body;
      BracketedClause(inner, k, failed, e, next, rest);
      NotToOr(ts, k);
    }
  }

  /** The clause for the query is what its text reads as, or its text cannot be read for an empty IN list. */
  ghost predicate QueryReadsAs(cfg: Config, n: Node, k: nat)
    requires IsQuery(n)
  {
    ReadsClause(Emit(cfg, n), k, HasEmptyIn(n), QuerySql(cfg, n, k, true), k + |Args(n)|)
  }

  lemma {:induction false} QueryReads(cfg: Config, n: Node, k: nat)
    requires IsQuery(n)
    ensures QueryReadsAs(cfg, n, k)
    decreases n
  {
    if n.op.And? || n.op.Or? {
      QueryReads(cfg, n.left, k);
      QueryReads(cfg, n.right, k + |Args(n.left)|);
      if n.op.And? { AndReads(cfg, n, k); } else { OrReads(cfg, n, k); }
    } else if n.op.Not? {
      QueryReads(cfg, n.right, k);
      NegatedRead(Emit(cfg, n), Emit(cfg, n.right), k, HasEmptyIn(n.right), QuerySql(cfg, n.right, k, true),
                  k + |Args(n.right)|);
    } else {
      TestRead(cfg, n, k);
    }
  }

  lemma AndReads(cfg: Config, n: Node, k: nat)
    requires IsQuery(n) && n.op.And?
    requires QueryReadsAs(cfg, n.left, k) && QueryReadsAs(cfg, n.right, k + |Args(n.left)|)
    ensures QueryReadsAs(cfg, n, k)
  {
    var l, r, k1 := n.left, n.right, k + |Args(n.left)|;
    BothRead(Emit(cfg, n), Emit(cfg, l), Emit(cfg, r), k, HasEmptyIn(l), QuerySql(cfg, l, k, true), k1,
             HasEmptyIn(r), QuerySql(cfg, r, k1, true), k + |Args(n)|, HasEmptyIn(n), QuerySql(cfg, n, k, true));
  }

  lemma OrReads(cfg: Config, n: Node, k: nat)
    requires IsQuery(n) && n.op.Or?
    requires QueryReadsAs(cfg, n.left, k) && QueryReadsAs(cfg, n.right, k + |Args(n.left)|)
    ensures QueryReadsAs(cfg, n, k)
  {
    var l, r, k1 := n.left, n.right, k + |Args(n.left)|;
    EitherRead(Emit(cfg, n), Emit(cfg, l), Emit(cfg, r), k, HasEmptyIn(l), QuerySql(cfg, l, k, true), k1,
               HasEmptyIn(r), QuerySql(cfg, r, k1, true), k + |Args(n)|, HasEmptyIn(n), QuerySql(cfg, n, k, true));
  }

  // ---------------------------------------------------------------------------------------
  // Read as meant
  // ---------------------------------------------------------------------------------------

  lemma {:induction false} PathIsGet(e: Sql, keys: seq<string>)
    requires keys != []
    ensures PathOver(e, keys).GetText?
    decreases keys
  {
    if |keys| > 1 { PathIsGet(GetJson(e, keys[0]), keys[1..]); }
  }

  lemma {:induction false} OperandAsMeant(cfg: Config, n: Node, k: nat)
    requires IsOperand(n)
    ensures OperandSql(cfg, n, k, true) == OperandSql(cfg, n, k, false) <==> !MinusOnSpec(n)
  {
    if n.Expr? {
      if IsSpecField(n.right) {
        PathIsGet(Negative(SpecColumn), SpecKeys(n.right.name));
      } else {
        OperandAsMeant(cfg, n.right, k);
      }
    }
  }

  lemma ItemsAsMeant(cfg: Config, a: Node, k: nat)
    requires a.ArrayLit? && AreOperands(a.values)
    ensures ItemsSql(cfg, a, k, true) == ItemsSql(cfg, a, k, false) <==>
            forall i :: 0 <= i < |a.values| ==> !MinusOnSpec(a.values[i])
  {
    var read, meant := ItemsSql(cfg, a, k, true), ItemsSql(cfg, a, k, false);
    forall i | 0 <= i < |a.values| ensures read[i] == meant[i] <==> !MinusOnSpec(a.values[i]) {
      OperandAsMeant(cfg, a.values[i], k + Offset(a, i));
    }
    assert read == meant <==> forall i :: 0 <= i < |a.values| ==> read[i] == meant[i];
  }

  lemma TestAsMeant(cfg: Config, n: Node, k: nat)
    requires IsTest(n)
    ensures TestSql(cfg, n, k, true) == TestSql(cfg, n, k, false) <==> !NegatesSpec(n)
  {
    var next := k + |Args(n.left)|;
    OperandAsMeant(cfg, n.left, k);
    if n.right.ArrayLit? {
      ItemsAsMeant(cfg, n.right, next);
      if n.op.Between? {
        var read, meant := ItemsSql(cfg, n.right, next, true), ItemsSql(cfg, n.right, next, false);
        assert read == meant <==> read[0] == meant[0] && read[1] == meant[1];
      }
    } else if !n.op.Is? {
      OperandAsMeant(cfg, n.right, next);
    }
  }

  lemma {:induction false} QueryAsMeant(cfg: Config, n: Node, k: nat)
    requires IsQuery(n)
    ensures QuerySql(cfg, n, k, true) == QuerySql(cfg, n, k, false) <==> !NegatesSpec(n)
  {
    if IsTest(n) {
      TestAsMeant(cfg, n, k);
    } else {
      if !n.op.Not? { QueryAsMeant(cfg, n.left, k); }
      QueryAsMeant(cfg, n.right, if n.op.Not? then k else k + |Args(n.left)|);
    }
  }

  /** The text is read as the query was meant exactly when no IN list is empty and no minus stands on a spec path. */
  lemma ReadAsMeant(cfg: Config, n: Node)
    requires IsQuery(n)
    ensures ReadWhere(Emit(cfg, n)).Some? <==> !HasEmptyIn(n)
    ensures ReadWhere(Emit(cfg, n)) == Some(QuerySql(cfg, n, 0, false)) <==> !HasEmptyIn(n) && !NegatesSpec(n)
    ensures !HasEmptyIn(n) ==> ReadWhere(Emit(cfg, n)) == Some(QuerySql(cfg, n, 0, true))
  {
    QueryReads(cfg, n, 0);
    assert ReadOr(Emit(cfg, n) + [], 0) ==
           if HasEmptyIn(n) then Failed else Read(QuerySql(cfg, n, 0, true), [], |Args(n)|);
    assert Emit(cfg, n) + [] == Emit(cfg, n);
    QueryAsMeant(cfg, n, 0);
  }
}
