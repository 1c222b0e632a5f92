/** Three-valued truth of the tree and of the SQL that is read back from its text, over one row of the table. */
module TslTruth {
  import opened Tsl
  import opened TslNames
  import opened SqlReader
  import opened SqlLexer
  import opened TslMeaning

  datatype Tri = Yes | No | Unknown

  /** One row, and what the operators do to values: nothing is assumed about either. */
  datatype Row<!V> = Row(
    arg: Arg -> V,
    nothing: V,
    column: (string, string) -> V,
    spec: V,
    getJson: (V, string) -> V,
    getText: (V, string) -> V,
    labelValue: (string, V) -> V,
    conditionValue: (string, string, V) -> V,
    cast: V -> V,
    minus: V -> V,
    compare: (Comparison, V, V) -> Tri,
    matches: (bool, V, V) -> Tri,
    isNull: V -> bool)

  function And3(a: Tri, b: Tri): Tri {
    if a == No || b == No then No else if a == Yes && b == Yes then Yes else Unknown
  }

  function Or3(a: Tri, b: Tri): Tri {
    if a == Yes || b == Yes then Yes else if a == No && b == No then No else Unknown
  }

  function Not3(a: Tri): Tri {
    match a
    case Yes => No
    case No => Yes
    case Unknown => Unknown
  }

  function AnyEqual<V>(row: Row<V>, v: V, items: seq<V>): Tri {
    if items == [] then No else Or3(row.compare(Eq, v, items[0]), AnyEqual(row, v, items[1..]))
  }

  function InRange<V>(row: Row<V>, v: V, low: V, high: V): Tri {
    And3(row.compare(Ge, v, low), row.compare(Le, v, high))
  }

  // ---------------------------------------------------------------------------------------
  // The tree, directly
  // ---------------------------------------------------------------------------------------

  function PathValue<V>(row: Row<V>, doc: V, keys: seq<string>): V
    decreases keys
  {
    if keys == [] then doc
    else if |keys| == 1 then row.getText(doc, keys[0])
    else PathValue(row, row.getJson(doc, keys[0]), keys[1..])
  }

  /** What a field stands for, by the shape of its name. */
  ghost function FieldValue<V>(cfg: Config, row: Row<V>, name: string): V {
    if exists key :: IsLabelOf(name, key) then
      var key :| IsLabelOf(name, key);
      row.labelValue(cfg.table, row.arg(Text(key)))
    else if exists ctype, rest :: IsConditionOf(name, ctype, rest) then
      var ctype, rest :| IsConditionOf(name, ctype, rest);
      row.conditionValue(SubfieldOf(rest), cfg.table, row.arg(Text(ctype)))
    else if exists keys :: IsPath(name, keys) then
      var keys :| IsPath(name, keys);
      PathValue(row, row.spec, keys)
    else
      TrimMeans(name);
      var core :| IsTrimmed(name, core);
      row.column(cfg.table, core)
  }

  ghost function OperandValue<V>(cfg: Config, row: Row<V>, n: Node): V
    requires IsOperand(n)
  {
    match n
    case Identifier(name) => FieldValue(cfg, row, name)
    case NullLit => row.nothing
    case StringLit(text) => row.arg(Text(text))
    case NumberLit(number) => row.arg(Number(number))
    case BoolLit(truth) => row.arg(Truth(truth))
    case TimestampLit(text) => row.arg(Text(text))
    case DateLit(text) => row.arg(Text(text))
    case Expr(_, _, r) => row.minus(OperandValue(cfg, row, r))
  }

  /** A spec path that meets numbers is compared as a number. */
  function MaybeCast<V>(row: Row<V>, v: V, numeric: bool): V {
    if numeric then row.cast(v) else v
  }

  ghost function ItemValues<V>(cfg: Config, row: Row<V>, values: seq<Node>): seq<V>
    requires AreOperands(values)
  {
    seq(|values|, i requires 0 <= i < |values| => OperandValue(cfg, row, values[i]))
  }

  ghost function TestTruth<V>(cfg: Config, row: Row<V>, n: Node): Tri
    requires IsTest(n)
  {
    var l := MaybeCast(row, OperandValue(cfg, row, n.left), CastsLeft(n));
    match n.op
    case Compare(cmp) =>
      row.compare(cmp, l, MaybeCast(row, OperandValue(cfg, row, n.right), IsSpecField(n.right) && IsNumeric(n.left)))
    case Like => row.matches(false, l, OperandValue(cfg, row, n.right))
    case ILike => row.matches(true, l, OperandValue(cfg, row, n.right))
    case In => AnyEqual(row, l, ItemValues(cfg, row, n.right.values))
    case Between =>
      InRange(row, l, OperandValue(cfg, row, n.right.values[0]), OperandValue(cfg, row, n.right.values[1]))
    case _ => if row.isNull(l) then Yes else No
  }

  ghost function QueryTruth<V>(cfg: Config, row: Row<V>, n: Node): Tri
    requires IsQuery(n)
  {
    match n.op
    case And => And3(QueryTruth(cfg, row, n.left), QueryTruth(cfg, row, n.right))
    case Or => Or3(QueryTruth(cfg, row, n.left), QueryTruth(cfg, row, n.right))
    case Not => Not3(QueryTruth(cfg, row, n.right))
    case _ => TestTruth(cfg, row, n)
  }

  // ---------------------------------------------------------------------------------------
  // The SQL, with its arguments bound by position
  // ---------------------------------------------------------------------------------------

  function SqlValue<V>(row: Row<V>, args: seq<Arg>, e: Sql): V {
    match e
    case ArgRef(i) => if i < |args| then row.arg(args[i]) else row.nothing
    case SqlNull => row.nothing
    case SqlColumn(table, name) => row.column(table, name)
    case SpecColumn => row.spec
    case GetJson(doc, key) => row.getJson(SqlValue(row, args, doc), key)
    case GetText(doc, key) => row.getText(SqlValue(row, args, doc), key)
    case LabelValue(table, key) => row.labelValue(table, SqlValue(row, args, key))
    case ConditionValue(subfield, table, ctype) => row.conditionValue(subfield, table, SqlValue(row, args, ctype))
    case CastNumeric(x) => row.cast(SqlValue(row, args, x))
    case Negative(x) => row.minus(SqlValue(row, args, x))
    case _ => row.nothing
  }

  function SqlTruth<V>(row: Row<V>, args: seq<Arg>, e: Sql): Tri {
    match e
    case Compared(cmp, l, r) => row.compare(cmp, SqlValue(row, args, l), SqlValue(row, args, r))
    case InList(x, items) =>
      AnyEqual(row, SqlValue(row, args, x), seq(|items|, i requires 0 <= i < |items| => SqlValue(row, args, items[i])))
    case IsBetween(x, low, high) =>
      InRange(row, SqlValue(row, args, x), SqlValue(row, args, low), SqlValue(row, args, high))
    case Matches(insensitive, l, r) => row.matches(insensitive, SqlValue(row, args, l), SqlValue(row, args, r))
    case NullTest(x) => if row.isNull(SqlValue(row, args, x)) then Yes else No
    case Both(l, r) => And3(SqlTruth(row, args, l), SqlTruth(row, args, r))
    case Either(l, r) => Or3(SqlTruth(row, args, l), SqlTruth(row, args, r))
    case Negated(x) => Not3(SqlTruth(row, args, x))
    case _ => Unknown
  }

  // ---------------------------------------------------------------------------------------
  // They agree
  // ---------------------------------------------------------------------------------------

  /** The arguments of `n` stand at position `k`. */
  ghost predicate Bound(args: seq<Arg>, k: nat, own: seq<Arg>) {
    k + |own| <= |args| && args[k..k + |own|] == own
  }

  lemma BoundParts(args: seq<Arg>, k: nat, a: seq<Arg>, b: seq<Arg>)
    requires Bound(args, k, a + b)
    ensures Bound(args, k, a) && Bound(args, k + |a|, b)
  {
    var own := a + b;
    assert own[..|a|] == a && own[|a|..] == b;
    assert args[k..k + |a|] == args[k..k + |own|][..|a|];
    assert args[k + |a|..k + |own|] == args[k..k + |own|][|a|..];
  }

  lemma BoundAt(args: seq<Arg>, k: nat, own: seq<Arg>)
    requires Bound(args, k, own) && |own| == 1
    ensures k < |args| && args[k] == own[0]
  {
    assert args[k..k + 1][0] == args[k];
  }

  /** PostgreSQL has no minus on the document and on the text of a path; and what has gone wrong stays wrong. */
  ghost predicate NoMinusOnSpec<V(!new)>(row: Row<V>, wrong: V) {
    && row.minus(row.spec) == wrong
    && (forall doc, key :: row.minus(row.getText(doc, key)) == wrong)
    && (forall key :: row.getJson(wrong, key) == wrong && row.getText(wrong, key) == wrong)
  }

  lemma {:induction false} PathAgrees<V>(row: Row<V>, args: seq<Arg>, e: Sql, keys: seq<string>)
    ensures SqlValue(row, args, PathOver(e, keys)) == PathValue(row, SqlValue(row, args, e), keys)
    decreases keys
  {
    if |keys| > 1 { PathAgrees(row, args, GetJson(e, keys[0]), keys[1..]); }
  }

  lemma {:induction false} WrongStaysWrong<V(!new)>(row: Row<V>, wrong: V, keys: seq<string>)
    requires NoMinusOnSpec(row, wrong)
    ensures PathValue(row, wrong, keys) == wrong
    decreases keys
  {
    if |keys| > 1 { WrongStaysWrong(row, wrong, keys[1..]); }
  }

  lemma {:induction false} MinusOnPath<V(!new)>(row: Row<V>, wrong: V, doc: V, keys: seq<string>)
    requires NoMinusOnSpec(row, wrong) && keys != []
    ensures row.minus(PathValue(row, doc, keys)) == wrong
    decreases keys
  {
    if |keys| > 1 { MinusOnPath(row, wrong, row.getJson(doc, keys[0]), keys[1..]); }
  }

  /** Either reading of `n` has its value: there is no minus on a spec path, or such a minus goes wrong anyway. */
  ghost predicate Harmless<V(!new)>(row: Row<V>, wrong: V, asRead: bool, negatesSpec: bool) {
    !asRead || !negatesSpec || NoMinusOnSpec(row, wrong)
  }

  /** The compiler takes the name apart as it is meant. */
  lemma FieldMeans<V>(cfg: Config, row: Row<V>, name: string)
    ensures FieldValue(cfg, row, name) ==
            if IsLabel(name) then row.labelValue(cfg.table, row.arg(Text(name[|LABELS|..])))
            else if IsCondition(name)
              then row.conditionValue(Subfield(name), cfg.table, row.arg(Text(ConditionParts(name)[0])))
            else if IsSpec(name) then PathValue(row, row.spec, SpecKeys(name))
            else row.column(cfg.table, TrimSpace(name))
  {
    LabelMeans(name);
    if IsCondition(name) { var ctype, rest := ConditionNamed(name); }
    forall ctype, rest | IsConditionOf(name, ctype, rest)
      ensures IsCondition(name) && ConditionParts(name)[0] == ctype && Subfield(name) == SubfieldOf(rest)
    {
      ConditionMeans(name, ctype, rest);
    }
    if HasPrefix(name, SPEC) { PathMeans(name); }
    forall core | IsTrimmed(name, core) ensures core == TrimSpace(name) { TrimUnique(name, core); }
  }

  lemma FieldAgrees<V>(cfg: Config, row: Row<V>, args: seq<Arg>, n: Node, k: nat, asRead: bool)
    requires n.Identifier? && Bound(args, k, Args(n))
    ensures SqlValue(row, args, OperandSql(cfg, n, k, asRead)) == OperandValue(cfg, row, n)
  {
    FieldMeans(cfg, row, n.name);
    if IsSpec(n.name) {
      PathAgrees(row, args, SpecColumn, SpecKeys(n.name));
    } else if IsLabel(n.name) || IsCondition(n.name) {
      BoundAt(args, k, Args(n));
    }
  }

  /** A minus directly on a spec path, which the text puts on the column. */
  lemma MinusAgrees<V(!new)>(cfg: Config, row: Row<V>, wrong: V, args: seq<Arg>, n: Node, k: nat)
    requires IsOperand(n) && n.Expr? && IsSpecField(n.right) && NoMinusOnSpec(row, wrong)
    ensures SqlValue(row, args, OperandSql(cfg, n, k, true)) == OperandValue(cfg, row, n)
  {
    var name := n.right.name;
    FieldMeans(cfg, row, name);
    PathAgrees(row, args, Negative(SpecColumn), SpecKeys(name));
    WrongStaysWrong(row, wrong, SpecKeys(name));
    MinusOnPath(row, wrong, row.spec, SpecKeys(name));
  }

  lemma {:induction false} OperandAgrees<V(!new)>(
    cfg: Config, row: Row<V>, wrong: V, args: seq<Arg>, n: Node, k: nat, asRead: bool)
    requires IsOperand(n) && Bound(args, k, Args(n)) && Harmless(row, wrong, asRead, MinusOnSpec(n))
    ensures SqlValue(row, args, OperandSql(cfg, n, k, asRead)) == OperandValue(cfg, row, n)
    decreases n
  {
    match n
    case Identifier(_) => FieldAgrees(cfg, row, args, n, k, asRead);
    case NullLit =>
    case Expr(_, _, r) =>
      if asRead && IsSpecField(r) {
        MinusAgrees(cfg, row, wrong, args, n, k);
      } else {
        OperandAgrees(cfg, row, wrong, args, r, k, asRead);
      }
    case StringLit(_) | NumberLit(_) | BoolLit(_) | TimestampLit(_) | DateLit(_) => BoundAt(args, k, Args(n));
  }

  lemma {:induction false} BoundItem(args: seq<Arg>, k: nat, a: Node, i: nat, n: nat)
    requires a.ArrayLit? && i < n <= |a.values| && Bound(args, k, Flatten(ItemArgs(a)[..n]))
    ensures Bound(args, k + Offset(a, i), Args(a.values[i]))
  {
    FlattenMore(ItemArgs(a)[..n - 1], Args(a.values[n - 1]));
    assert ItemArgs(a)[..n] == ItemArgs(a)[..n - 1] + [Args(a.values[n - 1])];
    BoundParts(args, k, Flatten(ItemArgs(a)[..n - 1]), Args(a.values[n - 1]));
    if i < n - 1 { BoundItem(args, k, a, i, n - 1); }
  }

  lemma ItemAgrees<V(!new)>(cfg: Config, row: Row<V>, wrong: V, args: seq<Arg>, a: Node, k: nat, asRead: bool, i: nat)
    requires a.ArrayLit? && AreOperands(a.values) && Bound(args, k, Args(a)) && i < |a.values|
    requires Harmless(row, wrong, asRead, exists j :: 0 <= j < |a.values| && MinusOnSpec(a.values[j]))
    ensures SqlValue(row, args, ItemsSql(cfg, a, k, asRead)[i]) == OperandValue(cfg, row, a.values[i])
  {
    ItemBound(args, k, a, i);
    assert Harmless(row, wrong, asRead, MinusOnSpec(a.values[i]));
    OperandAgrees(cfg, row, wrong, args, a.values[i], k + Offset(a, i), asRead);
  }

  lemma ItemBound(args: seq<Arg>, k: nat, a: Node, i: nat)
    requires a.ArrayLit? && i < |a.values| && Bound(args, k, Args(a))
    ensures Bound(args, k + Offset(a, i), Args(a.values[i]))
  {
    assert ItemArgs(a)[..|a.values|] == ItemArgs(a);
    BoundItem(args, k, a, i, |a.values|);
  }

  lemma ListAgrees<V(!new)>(cfg: Config, row: Row<V>, wrong: V, args: seq<Arg>, a: Node, k: nat, asRead: bool)
    requires a.ArrayLit? && AreOperands(a.values) && Bound(args, k, Args(a))
    requires Harmless(row, wrong, asRead, exists j :: 0 <= j < |a.values| && MinusOnSpec(a.values[j]))
    ensures var sql := ItemsSql(cfg, a, k, asRead);
            seq(|sql|, i requires 0 <= i < |sql| => SqlValue(row, args, sql[i])) == ItemValues(cfg, row, a.values)
  {
    var sql := ItemsSql(cfg, a, k, asRead);
    forall i | 0 <= i < |a.values| ensures SqlValue(row, args, sql[i]) == OperandValue(cfg, row, a.values[i]) {
      ItemAgrees(cfg, row, wrong, args, a, k, asRead, i);
    }
    assert seq(|sql|, i requires 0 <= i < |sql| => SqlValue(row, args, sql[i])) == ItemValues(cfg, row, a.values);
  }

  lemma CastAgrees<V>(row: Row<V>, args: seq<Arg>, e: Sql, numeric: bool)
    ensures SqlValue(row, args, Cast(e, numeric)) == MaybeCast(row, SqlValue(row, args, e), numeric)
  {
  }

  /** The left side of a test has the value it stands for. */
  ghost predicate LeftFits<V>(cfg: Config, row: Row<V>, args: seq<Arg>, n: Node, k: nat, asRead: bool)
    requires IsTest(n)
  {
    SqlValue(row, args, Cast(OperandSql(cfg, n.left, k, asRead), CastsLeft(n))) ==
    MaybeCast(row, OperandValue(cfg, row, n.left), CastsLeft(n))
  }

  lemma LeftAgrees<V(!new)>(cfg: Config, row: Row<V>, wrong: V, args: seq<Arg>, n: Node, k: nat, asRead: bool)
    requires IsTest(n) && Bound(args, k, Args(n.left)) && Harmless(row, wrong, asRead, MinusOnSpec(n.left))
    ensures LeftFits(cfg, row, args, n, k, asRead)
  {
    OperandAgrees(cfg, row, wrong, args, n.left, k, asRead);
  }

  /** The arguments of a test of two sides are those of its sides. */
  lemma SideArgs(args: seq<Arg>, k: nat, n: Node)
    requires IsTest(n) && !n.op.Is? && Bound(args, k, Args(n))
    ensures Bound(args, k, Args(n.left)) && Bound(args, k + |Args(n.left)|, Args(n.right))
  {
    assert Args(n) == Args(n.left) + Args(n.right);
    BoundParts(args, k, Args(n.left), Args(n.right));
  }

  lemma InTruth<V>(cfg: Config, row: Row<V>, args: seq<Arg>, n: Node, k: nat, asRead: bool)
    requires IsTest(n) && n.op.In? && LeftFits(cfg, row, args, n, k, asRead)
    requires var sql := ItemsSql(cfg, n.right, k + |Args(n.left)|, asRead);
             seq(|sql|, i requires 0 <= i < |sql| => SqlValue(row, args, sql[i])) ==
               ItemValues(cfg, row, n.right.values)
    ensures SqlTruth(row, args, TestSql(cfg, n, k, asRead)) == TestTruth(cfg, row, n)
  {
    InClause(cfg, n, k, asRead);
  }

  lemma BetweenClause(cfg: Config, n: Node, k: nat, asRead: bool)
    requires IsTest(n) && n.op.Between?
    ensures var items := ItemsSql(cfg, n.right, k + |Args(n.left)|, asRead);
            TestSql(cfg, n, k, asRead) ==
              IsBetween(Cast(OperandSql(cfg, n.left, k, asRead), CastsLeft(n)), items[0], items[1])
  {
  }

  lemma BetweenTruth<V>(cfg: Config, row: Row<V>, args: seq<Arg>, n: Node, k: nat, asRead: bool)
    requires IsTest(n) && n.op.Between? && LeftFits(cfg, row, args, n, k, asRead)
    requires var sql := ItemsSql(cfg, n.right, k + |Args(n.left)|, asRead);
             && SqlValue(row, args, sql[0]) == OperandValue(cfg, row, n.right.values[0])
             && SqlValue(row, args, sql[1]) == OperandValue(cfg, row, n.right.values[1])
    ensures SqlTruth(row, args, TestSql(cfg, n, k, asRead)) == TestTruth(cfg, row, n)
  {
    var l, items := Cast(OperandSql(cfg, n.left, k, asRead), CastsLeft(n)),
      ItemsSql(cfg, n.right, k + |Args(n.left)|, asRead);
    var low, high := items[0], items[1];
    BetweenClause(cfg, n, k, asRead);
    assert SqlTruth(row, args, IsBetween(l, low, high)) ==
           InRange(row, SqlValue(row, args, l), SqlValue(row, args, low), SqlValue(row, args, high));
  }

  lemma PairTruth<V>(cfg: Config, row: Row<V>, args: seq<Arg>, n: Node, k: nat, asRead: bool)
    requires IsTest(n) && (n.op.Compare? || n.op.Like? || n.op.ILike?) && LeftFits(cfg, row, args, n, k, asRead)
    requires SqlValue(row, args, OperandSql(cfg, n.right, k + |Args(n.left)|, asRead)) ==
             OperandValue(cfg, row, n.right)
    ensures SqlTruth(row, args, TestSql(cfg, n, k, asRead)) == TestTruth(cfg, row, n)
  {
    var l, r := Cast(OperandSql(cfg, n.left, k, asRead), CastsLeft(n)),
      OperandSql(cfg, n.right, k + |Args(n.left)|, asRead);
    if n.op.Compare? {
      CastAgrees(row, args, r, IsSpecField(n.right) && IsNumeric(n.left));
      assert TestSql(cfg, n, k, asRead) == Compared(n.op.cmp, l, Cast(r, IsSpecField(n.right) && IsNumeric(n.left)));
    } else {
      assert TestSql(cfg, n, k, asRead) == Matches(n.op.ILike?, l, r);
    }
  }

  lemma InAgrees<V(!new)>(cfg: Config, row: Row<V>, wrong: V, args: seq<Arg>, n: Node, k: nat, asRead: bool)
    requires IsTest(n) && n.op.In? && Bound(args, k, Args(n)) && Harmless(row, wrong, asRead, NegatesSpec(n))
    ensures SqlTruth(row, args, TestSql(cfg, n, k, asRead)) == TestTruth(cfg, row, n)
  {
    SideArgs(args, k, n);
    LeftAgrees(cfg, row, wrong, args, n, k, asRead);
    ListAgrees(cfg, row, wrong, args, n.right, k + |Args(n.left)|, asRead);
    InTruth(cfg, row, args, n, k, asRead);
  }

  lemma BetweenAgrees<V(!new)>(cfg: Config, row: Row<V>, wrong: V, args: seq<Arg>, n: Node, k: nat, asRead: bool)
    requires IsTest(n) && n.op.Between? && Bound(args, k, Args(n)) && Harmless(row, wrong, asRead, NegatesSpec(n))
    ensures SqlTruth(row, args, TestSql(cfg, n, k, asRead)) == TestTruth(cfg, row, n)
  {
    SideArgs(args, k, n);
    LeftAgrees(cfg, row, wrong, args, n, k, asRead);
    BoundsAgree(cfg, row, wrong, args, n.right, k + |Args(n.left)|, asRead);
    BetweenTruth(cfg, row, args, n, k, asRead);
  }

  lemma BoundsAgree<V(!new)>(cfg: Config, row: Row<V>, wrong: V, args: seq<Arg>, a: Node, k: nat, asRead: bool)
    requires a.ArrayLit? && |a.values| == 2 && AreOperands(a.values) && Bound(args, k, Args(a))
    requires Harmless(row, wrong, asRead, exists j :: 0 <= j < |a.values| && MinusOnSpec(a.values[j]))
    ensures SqlValue(row, args, ItemsSql(cfg, a, k, asRead)[0]) == OperandValue(cfg, row, a.values[0])
    ensures SqlValue(row, args, ItemsSql(cfg, a, k, asRead)[1]) == OperandValue(cfg, row, a.values[1])
  {
    ItemAgrees(cfg, row, wrong, args, a, k, asRead, 0);
    ItemAgrees(cfg, row, wrong, args, a, k, asRead, 1);
  }

  lemma PairAgrees<V(!new)>(cfg: Config, row: Row<V>, wrong: V, args: seq<Arg>, n: Node, k: nat, asRead: bool)
    requires IsTest(n) && (n.op.Compare? || n.op.Like? || n.op.ILike?)
    requires Bound(args, k, Args(n)) && Harmless(row, wrong, asRead, NegatesSpec(n))
    ensures SqlTruth(row, args, TestSql(cfg, n, k, asRead)) == TestTruth(cfg, row, n)
  {
    SideArgs(args, k, n);
    LeftAgrees(cfg, row, wrong, args, n, k, asRead);
    OperandAgrees(cfg, row, wrong, args, n.right, k + |Args(n.left)|, asRead);
    PairTruth(cfg, row, args, n, k, asRead);
  }

  lemma TestAgrees<V(!new)>(cfg: Config, row: Row<V>, wrong: V, args: seq<Arg>, n: Node, k: nat, asRead: bool)
    requires IsTest(n) && Bound(args, k, Args(n)) && Harmless(row, wrong, asRead, NegatesSpec(n))
    ensures SqlTruth(row, args, TestSql(cfg, n, k, asRead)) == TestTruth(cfg, row, n)
  {
    match n.op
    case Is => LeftAgrees(cfg, row, wrong, args, n, k, asRead);
    case In => InAgrees(cfg, row, wrong, args, n, k, asRead);
    case Between => BetweenAgrees(cfg, row, wrong, args, n, k, asRead);
    case _ => PairAgrees(cfg, row, wrong, args, n, k, asRead);
  }

  /** The clause for `n` has the truth value of `n`. */
  ghost predicate Agrees<V>(cfg: Config, row: Row<V>, args: seq<Arg>, n: Node, k: nat, asRead: bool)
    requires IsQuery(n)
  {
    SqlTruth(row, args, QuerySql(cfg, n, k, asRead)) == QueryTruth(cfg, row, n)
  }

  lemma {:induction false} AndAgrees<V>(cfg: Config, row: Row<V>, args: seq<Arg>, n: Node, k: nat, asRead: bool)
    requires IsQuery(n) && n.op.And?
    requires Agrees(cfg, row, args, n.left, k, asRead) && Agrees(cfg, row, args, n.right, k + |Args(n.left)|, asRead)
    ensures Agrees(cfg, row, args, n, k, asRead)
  {
  }

  lemma {:induction false} OrAgrees<V>(cfg: Config, row: Row<V>, args: seq<Arg>, n: Node, k: nat, asRead: bool)
    requires IsQuery(n) && n.op.Or?
    requires Agrees(cfg, row, args, n.left, k, asRead) && Agrees(cfg, row, args, n.right, k + |Args(n.left)|, asRead)
    ensures Agrees(cfg, row, args, n, k, asRead)
  {
  }

  lemma {:induction false} QueryAgrees<V(!new)>(
    cfg: Config, row: Row<V>, wrong: V, args: seq<Arg>, n: Node, k: nat, asRead: bool)
    requires IsQuery(n) && Bound(args, k, Args(n)) && Harmless(row, wrong, asRead, NegatesSpec(n))
    ensures Agrees(cfg, row, args, n, k, asRead)
    decreases n, 1
  {
    if n.op.And? || n.op.Or? {
      SidesAgree(cfg, row, wrong, args, n, k, asRead);
      if n.op.And? { AndAgrees(cfg, row, args, n, k, asRead); } else { OrAgrees(cfg, row, args, n, k, asRead); }
    } else if n.op.Not? {
      QueryAgrees(cfg, row, wrong, args, n.right, k, asRead);
    } else {
      TestAgrees(cfg, row, wrong, args, n, k, asRead);
    }
  }

  lemma {:induction false} SidesAgree<V(!new)>(
    cfg: Config, row: Row<V>, wrong: V, args: seq<Arg>, n: Node, k: nat, asRead: bool)
    requires IsQuery(n) && (n.op.And? || n.op.Or?) && Bound(args, k, Args(n)) &&
             Harmless(row, wrong, asRead, NegatesSpec(n))
    ensures Agrees(cfg, row, args, n.left, k, asRead) && Agrees(cfg, row, args, n.right, k + |Args(n.left)|, asRead)
    decreases n, 0
  {
    BoundParts(args, k, Args(n.left), Args(n.right));
    QueryAgrees(cfg, row, wrong, args, n.left, k, asRead);
    QueryAgrees(cfg, row, wrong, args, n.right, k + |Args(n.left)|, asRead);
  }

  /**
   * On every row, under every behaviour of the operators, the emitted text read as SQL with its arguments bound by
   * position has the truth value of the tree: for queries without empty IN lists and without a minus on a spec path.
   */
  lemma MeaningPreserved<V(!new)>(cfg: Config, row: Row<V>, n: Node)
    requires IsQuery(n) && !HasEmptyIn(n) && !NegatesSpec(n)
    ensures ReadWhere(Emit(cfg, n)).Some?
    ensures SqlTruth(row, Args(n), ReadWhere(Emit(cfg, n)).value) == QueryTruth(cfg, row, n)
  {
    ReadAsMeant(cfg, n);
    assert Bound(Args(n), 0, Args(n));
    QueryAgrees(cfg, row, row.nothing, Args(n), n, 0, true);
  }

  /** So much for the tokens; the text itself, taken apart again and read, means the same. */
  lemma TextPreservesMeaning<V(!new)>(cfg: Config, row: Row<V>, n: Node)
    requires Accepted(cfg, n) && IsKey(cfg.table) && IsQuery(n) && !HasEmptyIn(n) && !NegatesSpec(n)
    ensures var tokens := Lex(SqlText(Emit(cfg, n)));
            && tokens.Some? && ReadWhere(tokens.value).Some?
            && SqlTruth(row, Args(n), ReadWhere(tokens.value).value) == QueryTruth(cfg, row, n)
  {
    TextComesBack(cfg, n);
    MeaningPreserved(cfg, row, n);
  }

  /** Even with a minus on a spec path the two agree where, as in PostgreSQL, documents and texts have no minus. */
  lemma MeaningPreservedWithoutMinus<V(!new)>(cfg: Config, row: Row<V>, wrong: V, n: Node)
    requires IsQuery(n) && !HasEmptyIn(n) && NoMinusOnSpec(row, wrong)
    ensures ReadWhere(Emit(cfg, n)).Some?
    ensures SqlTruth(row, Args(n), ReadWhere(Emit(cfg, n)).value) == QueryTruth(cfg, row, n)
  {
    ReadAsMeant(cfg, n);
    assert Bound(Args(n), 0, Args(n));
    QueryAgrees(cfg, row, wrong, Args(n), n, 0, true);
  }
}
