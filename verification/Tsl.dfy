/**
 * The compiler from search trees to SQL: a tree in, a flat list of SQL tokens and the positional arguments out.
 * `Accept` says which trees pass, `After` what the shared context remembers, `Emit` and `Args` what comes out; the
 * class is the walker that shares one mutable context.
 */
module Tsl {

  datatype Comparison = Eq | Ne | Lt | Le | Gt | Ge

  /** `OtherOp` stands for the operators that the search language has and the compiler does not. */
  datatype Op =
    | And | Or | Not | Compare(cmp: Comparison) | In | Between | Is | Like | ILike | Minus | OtherOp(name: string)

  /** A node of the parsed tree; `Missing` is a nil child, `Unsupported` any kind without a case. */
  datatype Node =
    | Missing
    | Identifier(name: string)
    | StringLit(text: string)
    | NumberLit(number: real)
    | BoolLit(truth: bool)
    | TimestampLit(text: string)
    | DateLit(text: string)
    | NullLit
    | ArrayLit(values: seq<Node>)
    | Expr(op: Op, left: Node, right: Node)
    | Unsupported

  datatype Arg = Text(text: string) | Number(number: real) | Truth(truth: bool)

  /** Lexical pieces of the emitted text. The two selects run up to the placeholder that `Close` follows. */
  datatype Token =
    | Placeholder | NullWord | Open | Close | Comma
    | OrWord | AndWord | NotWord | IsNullWords | CompareSign(cmp: Comparison)
    | InWord | BetweenWord | LikeWord | ILikeWord
    | MinusSign | Arrow(key: string) | ArrowText(key: string)
    | Spec | Column(table: string, name: string) | CastOpen | AsNumeric
    | SelectLabel(table: string) | SelectCondition(subfield: string, table: string)

  /** The table name, and the time parser of the standard library. */
  datatype Config = Config(table: string, isRfc3339: string -> bool)

  function ComparisonText(cmp: Comparison): string {
    match cmp
    case Eq => " = "
    case Ne => " != "
    case Lt => " < "
    case Le => " <= "
    case Gt => " > "
    case Ge => " >= "
  }

  const LABELS_TABLE := "resource_labels"
  const CONDITIONS_TABLE := "resource_conditions"

  function TokenText(t: Token): string {
    match t
    case Placeholder => "?"
    case NullWord => "NULL"
    case Open => "("
    case Close => ")"
    case Comma => ", "
    case OrWord => " OR "
    case AndWord => " AND "
    case NotWord => "NOT "
    case IsNullWords => " IS NULL"
    case CompareSign(cmp) => ComparisonText(cmp)
    case InWord => " IN "
    case BetweenWord => " BETWEEN "
    case LikeWord => " LIKE "
    case ILikeWord => " ILIKE "
    case MinusSign => "-"
    case Arrow(key) => "->'" + key + "'"
    case ArrowText(key) => "->>'" + key + "'"
    case Spec => "spec"
    case Column(table, name) => table + "." + name
    case CastOpen => "CAST("
    case AsNumeric => " AS numeric)"
    case SelectLabel(table) =>
      "(SELECT value FROM " + LABELS_TABLE + " WHERE " + LABELS_TABLE + ".resource_id = " + table + ".id AND " +
      LABELS_TABLE + ".key = "
    case SelectCondition(subfield, table) =>
      "(SELECT rc." + subfield + " FROM " + CONDITIONS_TABLE + " rc WHERE rc.resource_id = " + table +
      ".id AND rc.type = "
  }

  function SqlText(sql: seq<Token>): string {
    if sql == [] then "" else TokenText(sql[0]) + SqlText(sql[1..])
  }

  // ---------------------------------------------------------------------------------------
  // Names
  // ---------------------------------------------------------------------------------------

  const LABELS := "labels."
  const CONDITIONS := "status.conditions."
  const SPEC := "spec."
  const STATUS := "status"

  predicate HasPrefix(s: string, p: string) {
    |p| <= |s| && s[..|p|] == p
  }

  predicate IsLabel(name: string) { HasPrefix(name, LABELS) }

  predicate IsCondition(name: string) { HasPrefix(name, CONDITIONS) }

  predicate IsSpec(name: string) { HasPrefix(name, SPEC) && !IsLabel(name) && !IsCondition(name) }

  /** `strings.Split` on the dot. */
  function Split(s: string): (parts: seq<string>)
    ensures |parts| > 0
  {
    if s == "" then [""]
    else if s[0] == '.' then [""] + Split(s[1..])
    else
      var rest := Split(s[1..]);
      [[s[0]] + rest[0]] + rest[1..]
  }

  predicate IsSpace(c: char) {
    c in {'\t', '\n', '\U{B}', '\U{C}', '\r', ' ', '\U{85}', '\U{A0}', '\U{1680}', '\U{2028}', '\U{2029}', '\U{202F}',
       '\U{205F}', '\U{3000}'}
    || '\U{2000}' <= c <= '\U{200A}'
  }

  function TrimLeft(s: string): string {
    if s != "" && IsSpace(s[0]) then TrimLeft(s[1..]) else s
  }

  function TrimRight(s: string): string {
    if s != "" && IsSpace(s[|s| - 1]) then TrimRight(s[..|s| - 1]) else s
  }

  function TrimSpace(s: string): string { TrimRight(TrimLeft(s)) }

  predicate KeyChar(c: char) {
    'a' <= c <= 'z' || '0' <= c <= '9' || c == '_'
  }

  /** `jsonbKeyPattern`, which also rules out the empty key. */
  predicate IsKey(s: string) {
    s != "" && forall i :: 0 <= i < |s| ==> KeyChar(s[i])
  }

  predicate IsConditionType(s: string) {
    s != "" && 'A' <= s[0] <= 'Z' &&
    forall i :: 0 <= i < |s| ==> 'a' <= s[i] <= 'z' || 'A' <= s[i] <= 'Z' || '0' <= s[i] <= '9'
  }

  function ConditionParts(name: string): (parts: seq<string>)
    requires IsCondition(name)
    ensures |parts| > 0
  {
    Split(name[|CONDITIONS|..])
  }

  function Subfield(name: string): string
    requires IsCondition(name)
  {
    var parts := ConditionParts(name);
    if |parts| == 2 then parts[1] else STATUS
  }

  const SUBFIELDS: set<string> := {"last_updated_time", "last_transition_time", "observed_generation"}

  predicate ConditionOk(name: string)
    requires IsCondition(name)
  {
    var parts := ConditionParts(name);
    |parts| <= 2 && IsConditionType(parts[0]) && (|parts| == 2 ==> parts[1] in SUBFIELDS)
  }

  function SpecKeys(name: string): (keys: seq<string>)
    requires HasPrefix(name, SPEC)
    ensures |keys| > 0
  {
    Split(name[|SPEC|..])
  }

  predicate FieldOk(name: string) {
    var parts := Split(TrimSpace(name));
    |parts| == 1 && IsKey(parts[0])
  }

  predicate AllKeys(keys: seq<string>) {
    forall i :: 0 <= i < |keys| ==> IsKey(keys[i])
  }

  /** The column can be resolved; labels and conditions never under a NOT. */
  predicate ColumnOk(name: string, inNot: bool) {
    if IsLabel(name) then !inNot && name != LABELS
    else if IsCondition(name) then !inNot && ConditionOk(name)
    else if IsSpec(name) then AllKeys(SpecKeys(name))
    else FieldOk(name)
  }

  function PathTokens(keys: seq<string>): seq<Token> {
    if keys == [] then []
    else if |keys| == 1 then [ArrowText(keys[0])]
    else [Arrow(keys[0])] + PathTokens(keys[1..])
  }

  function ColumnTokens(cfg: Config, name: string): seq<Token> {
    if IsLabel(name) then [SelectLabel(cfg.table), Placeholder, Close]
    else if IsCondition(name) then [SelectCondition(Subfield(name), cfg.table), Placeholder, Close]
    else if IsSpec(name) then [Spec] + PathTokens(SpecKeys(name))
    else [Column(cfg.table, TrimSpace(name))]
  }

  function ColumnArgs(name: string): seq<Arg> {
    if IsLabel(name) then [Text(name[|LABELS|..])]
    else if IsCondition(name) then [Text(ConditionParts(name)[0])]
    else []
  }

  // ---------------------------------------------------------------------------------------
  // Checks on nodes
  // ---------------------------------------------------------------------------------------

  predicate IsConditionNode(n: Node) {
    n.Identifier? && IsCondition(n.name)
  }

  /** `requirePredicate`: a bare literal or field is no predicate. */
  predicate MayBePredicate(n: Node) {
    n.Missing? || n.Expr?
  }

  predicate IsConstant(n: Node) {
    match n
    case Identifier(_) => false
    case Expr(_, l, r) => IsConstant(l) && IsConstant(r)
    case _ => true
  }

  datatype Expected = Untyped | WantsNumber | WantsTimestamp

  function ExpectedFor(n: Node): Expected {
    if n.Identifier? && n.name == "generation" then WantsNumber
    else if n.Identifier? && n.name in {"created_time", "updated_time", "deleted_time"} then WantsTimestamp
    else Untyped
  }

  predicate Fits(want: Expected, value: Node) {
    match want
    case Untyped => true
    case WantsNumber => value.NullLit? || value.NumberLit?
    case WantsTimestamp => value.NullLit? || value.TimestampLit? || value.DateLit?
  }

  predicate AllFit(want: Expected, values: seq<Node>) {
    forall i :: 0 <= i < |values| ==> Fits(want, values[i])
  }

  /** `validateConditionComparison`, on the arguments of the other side. */
  predicate ConditionComparisonOk(cfg: Config, cmp: Comparison, subfield: string, values: seq<Arg>) {
    if values == [] then true
    else if subfield == STATUS then cmp == Eq && (values[0].Text? ==> values[0].text in {"True", "False", "Unknown"})
    else if subfield == "observed_generation" then values[0].Number? ==> IsInt32(values[0].number)
    else if subfield in SUBFIELDS then values[0].Text? ==> cfg.isRfc3339(values[0].text)
    else false
  }

  predicate IsInt32(x: real) {
    x == x.Floor as real && -2147483648.0 <= x <= 2147483647.0
  }

  // ---------------------------------------------------------------------------------------
  // What is accepted and what is emitted
  // ---------------------------------------------------------------------------------------

  /** The condition subfield that the shared context remembers after an accepted walk. */
  function After(n: Node, sub: string): string
    decreases n, 1, 0
  {
    match n
    case Identifier(name) => if !IsLabel(name) && IsCondition(name) then Subfield(name) else sub
    case ArrayLit(values) => AfterItems(n, |values|, sub)
    case Expr(op, l, r) =>
      (match op
       case And | Or | Like | ILike => After(r, After(l, sub))
       case In | Between => if r.ArrayLit? then AfterItems(r, |r.values|, After(l, sub)) else After(l, sub)
       case Not => sub
       case Minus => After(r, sub)
       case Is | Compare(_) | OtherOp(_) => "")
    case _ => sub
  }

  function AfterItems(a: Node, i: nat, sub: string): string
    requires a.ArrayLit? && i <= |a.values|
    decreases a, 0, i
  {
    if i == 0 then sub else After(a.values[i - 1], AfterItems(a, i - 1, sub))
  }

  predicate Accept(cfg: Config, n: Node, inNot: bool, sub: string)
    decreases n, 1, 0
  {
    match n
    case Identifier(name) => ColumnOk(name, inNot)
    case ArrayLit(values) => AcceptItems(cfg, n, |values|, inNot, sub)
    case Unsupported => false
    case Expr(op, l, r) =>
      (match op
       case And | Or =>
         MayBePredicate(l) && MayBePredicate(r) && Accept(cfg, l, inNot, sub) && Accept(cfg, r, inNot, After(l, sub))
       case In =>
         !IsConditionNode(l) && !IsConstant(l) && Accept(cfg, l, inNot, sub) &&
         r.ArrayLit? && AllFit(ExpectedFor(l), r.values) && AcceptItems(cfg, r, |r.values|, inNot, After(l, sub))
       case Between =>
         !IsConditionNode(l) && !IsConstant(l) && Accept(cfg, l, inNot, sub) &&
         r.ArrayLit? && |r.values| == 2 && AcceptItems(cfg, r, |r.values|, inNot, After(l, sub))
       case Is => !IsConstant(l) && Accept(cfg, l, inNot, sub)
       case Like | ILike =>
         !IsConditionNode(l) && !(IsConstant(l) && IsConstant(r)) &&
         Accept(cfg, l, inNot, sub) && Accept(cfg, r, inNot, After(l, sub))
       case Not => MayBePredicate(r) && Accept(cfg, r, true, "")
       case Minus => Accept(cfg, r, inNot, sub)
       case OtherOp(_) => false
       case Compare(cmp) =>
         !(IsConstant(l) && IsConstant(r)) && Fits(ExpectedFor(l), r) && Fits(ExpectedFor(r), l) &&
         Accept(cfg, l, inNot, sub) && Accept(cfg, r, inNot, After(l, sub)) &&
         var subfield := After(r, After(l, sub));
         subfield != "" ==> ConditionComparisonOk(cfg, cmp, subfield, Args(if IsConditionNode(r) then l else r)))
    case _ => true
  }

  predicate AcceptItems(cfg: Config, a: Node, i: nat, inNot: bool, sub: string)
    requires a.ArrayLit? && i <= |a.values|
    decreases a, 0, i
  {
    i > 0 ==> AcceptItems(cfg, a, i - 1, inNot, sub) && Accept(cfg, a.values[i - 1], inNot, AfterItems(a, i - 1, sub))
  }

  function JoinItems(parts: seq<seq<Token>>): seq<Token> {
    if parts == [] then []
    else if |parts| == 1 then parts[0]
    else parts[0] + [Comma] + JoinItems(parts[1..])
  }

  function Flatten(parts: seq<seq<Arg>>): seq<Arg> {
    if parts == [] then [] else Flatten(parts[..|parts| - 1]) + parts[|parts| - 1]
  }

  /** The positional arguments, in the order of their placeholders. */
  function Args(n: Node): seq<Arg>
    decreases n, 1
  {
    match n
    case Identifier(name) => ColumnArgs(name)
    case StringLit(text) => [Text(text)]
    case NumberLit(number) => [Number(number)]
    case BoolLit(truth) => [Truth(truth)]
    case TimestampLit(text) => [Text(text)]
    case DateLit(text) => [Text(text)]
    case ArrayLit(_) => Flatten(ItemArgs(n))
    case Expr(op, l, r) =>
      (match op
       case Is => Args(l)
       case Not | Minus => Args(r)
       case _ => Args(l) + Args(r))
    case _ => []
  }

  function ItemArgs(a: Node): seq<seq<Arg>>
    requires a.ArrayLit?
    decreases a, 0
  {
    seq(|a.values|, i requires 0 <= i < |a.values| => Args(a.values[i]))
  }

  predicate StartsWithNumber(args: seq<Arg>) {
    args != [] && args[0].Number?
  }

  predicate AllNumbers(args: seq<Arg>) {
    args != [] && forall i :: 0 <= i < |args| ==> args[i].Number?
  }

  predicate IsSpecPath(sql: seq<Token>) {
    |sql| > 1 && sql[0] == Spec && (sql[1].Arrow? || sql[1].ArrowText?)
  }

  /** A spec path that meets numbers is read as a number. */
  function Casted(sql: seq<Token>, numeric: bool): seq<Token> {
    if IsSpecPath(sql) && numeric then [CastOpen] + sql + [AsNumeric] else sql
  }

  function PairText(left: seq<Token>, word: Token, right: seq<Token>): seq<Token> {
    [Open] + left + [Close, word, Open] + right + [Close]
  }

  function TestText(left: seq<Token>, word: Token, right: seq<Token>): seq<Token> {
    left + [word] + right
  }

  function ListText(left: seq<Token>, items: seq<Token>): seq<Token> {
    left + [InWord, Open] + items + [Close]
  }

  function RangeText(left: seq<Token>, low: seq<Token>, high: seq<Token>): seq<Token> {
    left + [BetweenWord] + low + [AndWord] + high
  }

  function Emit(cfg: Config, n: Node): seq<Token>
    decreases n, 1
  {
    match n
    case Identifier(name) => ColumnTokens(cfg, name)
    case NullLit => [NullWord]
    case Missing | Unsupported => []
    case ArrayLit(_) => [Open] + JoinItems(ItemTokens(cfg, n)) + [Close]
    case Expr(op, l, r) =>
      (match op
       case And => PairText(Emit(cfg, l), AndWord, Emit(cfg, r))
       case Or => PairText(Emit(cfg, l), OrWord, Emit(cfg, r))
       case Not => [NotWord, Open] + Emit(cfg, r) + [Close]
       case Minus => [Open, MinusSign] + Emit(cfg, r) + [Close]
       case Compare(cmp) =>
         TestText(Casted(Emit(cfg, l), StartsWithNumber(Args(r))), CompareSign(cmp),
                  Casted(Emit(cfg, r), StartsWithNumber(Args(l))))
       case In =>
         if r.ArrayLit? then
           ListText(Casted(Emit(cfg, l), AllNumbers(Args(r))), JoinItems(ItemTokens(cfg, r)))
         else []
       case Between =>
         if r.ArrayLit? && |r.values| == 2 then
           RangeText(Casted(Emit(cfg, l), StartsWithNumber(Args(r.values[0])) && StartsWithNumber(Args(r.values[1]))),
                     Emit(cfg, r.values[0]), Emit(cfg, r.values[1]))
         else []
       case Like => TestText(Emit(cfg, l), LikeWord, Emit(cfg, r))
       case ILike => TestText(Emit(cfg, l), ILikeWord, Emit(cfg, r))
       case Is => Emit(cfg, l) + [IsNullWords]
       case OtherOp(_) => [])
    case _ => [Placeholder]
  }

  function ItemTokens(cfg: Config, a: Node): seq<seq<Token>>
    requires a.ArrayLit?
    decreases a, 0
  {
    seq(|a.values|, i requires 0 <= i < |a.values| => Emit(cfg, a.values[i]))
  }

  predicate Accepted(cfg: Config, n: Node) {
    MayBePredicate(n) && Accept(cfg, n, false, "")
  }

  lemma FlattenMore(parts: seq<seq<Arg>>, part: seq<Arg>)
    ensures Flatten(parts + [part]) == Flatten(parts) + part
  {
    assert (parts + [part])[..|parts|] == parts;
  }

  lemma FirstLetter(t: Token)
    requires t != Spec && !t.Column?
    ensures TokenText(t) != "" && TokenText(t)[0] != 's'
  {
    match t
    case CompareSign(cmp) => assert ComparisonText(cmp)[0] == ' ';
    case Arrow(key) => assert ("->'" + key + "'")[0] == '-';
    case ArrowText(key) => assert ("->>'" + key + "'")[0] == '-';
    case SelectLabel(_) => assert "(SELECT value FROM "[0] == '(';
    case SelectCondition(_, _) => assert TokenText(t)[0] == '(';
    case _ =>
  }

  lemma OtherPrefix(t: Token, rest: string)
    requires t != Spec && !t.Column?
    ensures !HasPrefix(TokenText(t) + rest, "spec->")
  {
    FirstLetter(t);
    var p := "spec->";
    assert p[0] == 's' && (TokenText(t) + rest)[0] == TokenText(t)[0];
  }

  /** Emitted text begins with a spec column only where a path follows. */
  ghost predicate WellBegun(cfg: Config, sql: seq<Token>) {
    sql != [] ==>
      && (sql[0] == Spec ==> |sql| > 1 && (sql[1].Arrow? || sql[1].ArrowText?))
      && (sql[0].Column? ==> sql[0].table == cfg.table)
  }

  /** The prefix test on the text is the test on the tokens. */
  lemma SpecPrefix(cfg: Config, sql: seq<Token>)
    requires WellBegun(cfg, sql) && '-' !in cfg.table
    ensures HasPrefix(SqlText(sql), "spec->") <==> IsSpecPath(sql)
  {
    if sql != [] {
      var rest := SqlText(sql[1..]);
      if sql[0] == Spec {
        ArrowPrefix(sql[1..]);
        PrefixAfter("spec", rest, "->");
      } else if sql[0].Column? {
        ColumnPrefix(sql[0].table, sql[0].name, rest);
      } else {
        OtherPrefix(sql[0], rest);
      }
    }
  }

  /** So every cast decision of the compiler is the one that its test on the emitted text makes. */
  lemma {:induction false} EmittedWellBegun(cfg: Config, n: Node)
    ensures WellBegun(cfg, Emit(cfg, n))
  {
    match n
    case Expr(op, l, r) =>
      if !op.And? && !op.Or? && !op.Not? && !op.Minus? {
        EmittedWellBegun(cfg, l);
        TestWellBegun(cfg, n);
      }
    case _ =>
  }

  lemma {:induction false} TestWellBegun(cfg: Config, n: Node)
    requires n.Expr? && WellBegun(cfg, Emit(cfg, n.left))
    requires !n.op.And? && !n.op.Or? && !n.op.Not? && !n.op.Minus?
    ensures WellBegun(cfg, Emit(cfg, n))
  {
    CastWellBegun(cfg, Emit(cfg, n.left), true);
    CastWellBegun(cfg, Emit(cfg, n.left), false);
  }

  lemma CastWellBegun(cfg: Config, sql: seq<Token>, numeric: bool)
    requires WellBegun(cfg, sql)
    ensures WellBegun(cfg, Casted(sql, numeric))
  {
  }

  lemma ArrowPrefix(sql: seq<Token>)
    requires sql != [] && (sql[0].Arrow? || sql[0].ArrowText?)
    ensures HasPrefix(SqlText(sql), "->")
  {
    var text := TokenText(sql[0]);
    assert text[0] == '-' && text[1] == '>';
    assert SqlText(sql)[0] == text[0] && SqlText(sql)[1] == text[1];
  }

  lemma PrefixAfter(a: string, s: string, p: string)
    requires HasPrefix(s, p)
    ensures HasPrefix(a + s, a + p)
  {
    assert (a + s)[..|a| + |p|] == a + s[..|p|];
  }

  lemma ColumnPrefix(table: string, name: string, rest: string)
    requires '-' !in table
    ensures !HasPrefix(table + "." + name + rest, "spec->")
  {
    var text := table + "." + name + rest;
    assert forall i :: 0 <= i < |table| ==> text[i] == table[i];
    assert text[|table|] == '.';
    var p := "spec->";
    assert p[4] == '-' && forall i :: 0 <= i < 4 ==> p[i] != '.';
    assert HasPrefix(text, p) ==> forall i :: 0 <= i < 6 ==> text[i] == p[i];
  }

  // ---------------------------------------------------------------------------------------
  // The walker
  // ---------------------------------------------------------------------------------------

  /** `TSLToSQL`. */
  method Compile(cfg: Config, node: Node) returns (ok: bool, sql: seq<Token>, args: seq<Arg>)
    ensures ok <==> Accepted(cfg, node)
    ensures ok ==> sql == Emit(cfg, node) && args == Args(node)
  {
    if !MayBePredicate(node) { return false, [], []; }
    var ctx := new WalkContext(cfg, false);
    ok, sql, args := ctx.WalkNode(node);
  }

  class WalkContext {
    const cfg: Config
    const inNot: bool
    var conditionSubfield: string

    constructor (cfg: Config, inNot: bool)
      ensures this.cfg == cfg && this.inNot == inNot && conditionSubfield == ""
    {
      this.cfg, this.inNot, conditionSubfield := cfg, inNot, "";
    }

    method WalkNode(n: Node) returns (ok: bool, sql: seq<Token>, args: seq<Arg>)
      modifies this`conditionSubfield
      ensures ok <==> Accept(cfg, n, inNot, old(conditionSubfield))
      ensures ok ==> sql == Emit(cfg, n) && args == Args(n) && conditionSubfield == After(n, old(conditionSubfield))
      decreases n, 3
    {
      match n
      case Missing => return true, [], [];
      case Identifier(name) => ok, sql, args := ResolveColumn(name);
      case StringLit(text) => return true, [Placeholder], [Text(text)];
      case NumberLit(number) => return true, [Placeholder], [Number(number)];
      case BoolLit(truth) => return true, [Placeholder], [Truth(truth)];
      case TimestampLit(text) => return true, [Placeholder], [Text(text)];
      case DateLit(text) => return true, [Placeholder], [Text(text)];
      case NullLit => return true, [NullWord], [];
      case Expr(_, _, _) => ok, sql, args := WalkNaryExpr(n);
      case ArrayLit(_) => ok, sql, args := WalkArrayLiteral(n);
      case Unsupported => return false, [], [];
    }

    method ResolveColumn(name: string) returns (ok: bool, sql: seq<Token>, args: seq<Arg>)
      modifies this`conditionSubfield
      ensures ok <==> ColumnOk(name, inNot)
      ensures ok ==> sql == ColumnTokens(cfg, name) && args == ColumnArgs(name)
      ensures ok ==> conditionSubfield == After(Identifier(name), old(conditionSubfield))
    {
      if IsLabel(name) {
        if inNot { return false, [], []; }
        var key := name[|LABELS|..];
        if key == "" { return false, [], []; }
        return true, [SelectLabel(cfg.table), Placeholder, Close], [Text(key)];
      }
      if IsCondition(name) {
        if inNot { return false, [], []; }
        ok, sql, args := ResolveStatusConditionColumn(name);
        return;
      }
      if IsSpec(name) {
        ok, sql := ResolveSpecColumn(name);
        return ok, sql, [];
      }
      ok, sql := ResolveField(name);
      return ok, sql, [];
    }

    /** The one place where the shared subfield is set. */
    method ResolveStatusConditionColumn(name: string) returns (ok: bool, sql: seq<Token>, args: seq<Arg>)
      requires IsCondition(name)
      modifies this`conditionSubfield
      ensures ok <==> ConditionOk(name)
      ensures ok ==> sql == [SelectCondition(Subfield(name), cfg.table), Placeholder, Close]
      ensures ok ==> args == [Text(ConditionParts(name)[0])] && conditionSubfield == Subfield(name)
    {
      var parts := Split(name[|CONDITIONS|..]);
      if |parts| > 2 || !IsConditionType(parts[0]) { return false, [], []; }
      var subfield := STATUS;
      if |parts| == 2 {
        subfield := parts[1];
        if subfield !in SUBFIELDS { return false, [], []; }
      }
      conditionSubfield := subfield;
      return true, [SelectCondition(subfield, cfg.table), Placeholder, Close], [Text(parts[0])];
    }

    method ResolveSpecColumn(name: string) returns (ok: bool, sql: seq<Token>)
      requires IsSpec(name)
      ensures ok <==> AllKeys(SpecKeys(name))
      ensures ok ==> sql == [Spec] + PathTokens(SpecKeys(name))
    {
      var parts := Split(name[|SPEC|..]);
      for i := 0 to |parts|
        invariant AllKeys(parts[..i])
      {
        if !IsKey(parts[i]) { return false, []; }
      }
      sql := [Spec];
      for i := 0 to |parts|
        invariant sql + PathTokens(parts[i..]) == [Spec] + PathTokens(parts)
      {
        assert parts[i..][1..] == parts[i + 1..];
        if i == |parts| - 1 {
          sql := sql + [ArrowText(parts[i])];
        } else {
          sql := sql + [Arrow(parts[i])];
        }
      }
      return true, sql;
    }

    method ResolveField(name: string) returns (ok: bool, sql: seq<Token>)
      ensures ok <==> FieldOk(name)
      ensures ok ==> sql == [Column(cfg.table, TrimSpace(name))]
    {
      var trimmed := TrimSpace(name);
      var parts := Split(trimmed);
      for i := 0 to |parts|
        invariant AllKeys(parts[..i])
      {
        if !IsKey(parts[i]) { return false, []; }
      }
      if |parts| != 1 { return false, []; }
      return true, [Column(cfg.table, trimmed)];
    }

    method WalkNaryExpr(n: Node) returns (ok: bool, sql: seq<Token>, args: seq<Arg>)
      requires n.Expr?
      modifies this`conditionSubfield
      ensures ok <==> Accept(cfg, n, inNot, old(conditionSubfield))
      ensures ok ==> sql == Emit(cfg, n) && args == Args(n) && conditionSubfield == After(n, old(conditionSubfield))
      decreases n, 2
    {
      match n.op
      case And | Or => ok, sql, args := WalkLogical(n);
      case In => ok, sql, args := WalkIn(n);
      case Between => ok, sql, args := WalkBetween(n);
      case Is => ok, sql, args := WalkIsNull(n);
      case Like | ILike => ok, sql, args := WalkStringMatch(n);
      case Not =>
        if !MayBePredicate(n.right) { return false, [], []; }
        var child := new WalkContext(cfg, true);
        ok, sql, args := child.WalkNode(n.right);
        sql := [NotWord, Open] + sql + [Close];
      case Minus =>
        ok, sql, args := WalkNode(n.right);
        sql := [Open, MinusSign] + sql + [Close];
      case Compare(_) | OtherOp(_) => ok, sql, args := WalkComparison(n);
    }

    method WalkLogical(n: Node) returns (ok: bool, sql: seq<Token>, args: seq<Arg>)
      requires n.Expr? && (n.op.And? || n.op.Or?)
      modifies this`conditionSubfield
      ensures ok <==> Accept(cfg, n, inNot, old(conditionSubfield))
      ensures ok ==> sql == Emit(cfg, n) && args == Args(n) && conditionSubfield == After(n, old(conditionSubfield))
      decreases n, 0
    {
      if !MayBePredicate(n.left) || !MayBePredicate(n.right) { return false, [], []; }
      var leftOk, leftSql, leftArgs := WalkNode(n.left);
      if !leftOk { return false, [], []; }
      var rightOk, rightSql, rightArgs := WalkNode(n.right);
      if !rightOk { return false, [], []; }
      var keyword := if n.op.And? then AndWord else OrWord;
      return true, PairText(leftSql, keyword, rightSql), leftArgs + rightArgs;
    }

    method WalkComparison(n: Node) returns (ok: bool, sql: seq<Token>, args: seq<Arg>)
      requires n.Expr? && (n.op.Compare? || n.op.OtherOp?)
      modifies this`conditionSubfield
      ensures ok <==> Accept(cfg, n, inNot, old(conditionSubfield))
      ensures ok ==> sql == Emit(cfg, n) && args == Args(n) && conditionSubfield == After(n, old(conditionSubfield))
      decreases n, 0
    {
      var l, r := n.left, n.right;
      if IsConstant(l) && IsConstant(r) { return false, [], []; }
      if !Fits(ExpectedFor(l), r) || !Fits(ExpectedFor(r), l) { return false, [], []; }
      var leftOk, leftSql, leftArgs := WalkNode(l);
      if !leftOk { return false, [], []; }
      var rightOk, rightSql, rightArgs := WalkNode(r);
      if !rightOk || !n.op.Compare? { return false, [], []; }
      var castLeft := IsSpecPath(leftSql) && StartsWithNumber(rightArgs);
      var castRight := IsSpecPath(rightSql) && StartsWithNumber(leftArgs);
      if castLeft { leftSql := [CastOpen] + leftSql + [AsNumeric]; }
      if castRight { rightSql := [CastOpen] + rightSql + [AsNumeric]; }
      if conditionSubfield != "" {
        var values := if IsConditionNode(r) then leftArgs else rightArgs;
        if !ConditionComparisonOk(cfg, n.op.cmp, conditionSubfield, values) { return false, [], []; }
        conditionSubfield := "";
      }
      return true, TestText(leftSql, CompareSign(n.op.cmp), rightSql), leftArgs + rightArgs;
    }

    /** The loop that walks the values of an array, in walkIn and walkArrayLiteral alike. */
    method WalkValues(a: Node) returns (ok: bool, placeholders: seq<seq<Token>>, args: seq<Arg>)
      requires a.ArrayLit?
      modifies this`conditionSubfield
      ensures ok <==> AcceptItems(cfg, a, |a.values|, inNot, old(conditionSubfield))
      ensures ok ==> placeholders == ItemTokens(cfg, a) && args == Flatten(ItemArgs(a))
      ensures ok ==> conditionSubfield == AfterItems(a, |a.values|, old(conditionSubfield))
      decreases a, 0
    {
      placeholders, args := [], [];
      ghost var sub := conditionSubfield;
      for i := 0 to |a.values|
        invariant AcceptItems(cfg, a, i, inNot, sub) && conditionSubfield == AfterItems(a, i, sub)
        invariant placeholders == ItemTokens(cfg, a)[..i] && args == Flatten(ItemArgs(a)[..i])
      {
        var itemOk, itemSql, itemArgs := WalkNode(a.values[i]);
        if !itemOk {
          NotAllAccepted(cfg, a, i + 1, inNot, sub);
          return false, [], [];
        }
        NextItem(cfg, a, i);
        placeholders, args := placeholders + [itemSql], args + itemArgs;
      }
      assert ItemArgs(a)[..|a.values|] == ItemArgs(a);
      return true, placeholders, args;
    }

    method WalkIn(n: Node) returns (ok: bool, sql: seq<Token>, args: seq<Arg>)
      requires n.Expr? && n.op.In?
      modifies this`conditionSubfield
      ensures ok <==> Accept(cfg, n, inNot, old(conditionSubfield))
      ensures ok ==> sql == Emit(cfg, n) && args == Args(n) && conditionSubfield == After(n, old(conditionSubfield))
      decreases n, 1
    {
      var l, r := n.left, n.right;
      if IsConditionNode(l) || IsConstant(l) { return false, [], []; }
      if r.ArrayLit? && !AllFit(ExpectedFor(l), r.values) { return false, [], []; }
      ok, sql, args := WalkList(n);
    }

    /** The second half of walkIn, once its checks have passed. */
    method WalkList(n: Node) returns (ok: bool, sql: seq<Token>, args: seq<Arg>)
      requires n.Expr? && n.op.In? && !IsConditionNode(n.left) && !IsConstant(n.left)
      requires n.right.ArrayLit? ==> AllFit(ExpectedFor(n.left), n.right.values)
      modifies this`conditionSubfield
      ensures ok <==> Accept(cfg, n, inNot, old(conditionSubfield))
      ensures ok ==> sql == Emit(cfg, n) && args == Args(n) && conditionSubfield == After(n, old(conditionSubfield))
      decreases n, 0
    {
      ListParts(cfg, n, inNot, conditionSubfield);
      var leftOk, leftSql, leftArgs := WalkNode(n.left);
      if !leftOk || !n.right.ArrayLit? { return false, [], []; }
      var rightOk, placeholders, rightArgs := WalkValues(n.right);
      if !rightOk { return false, [], []; }
      if IsSpecPath(leftSql) && AllNumbers(rightArgs) { leftSql := [CastOpen] + leftSql + [AsNumeric]; }
      return true, ListText(leftSql, JoinItems(placeholders)), leftArgs + rightArgs;
    }

    method WalkBetween(n: Node) returns (ok: bool, sql: seq<Token>, args: seq<Arg>)
      requires n.Expr? && n.op.Between?
      modifies this`conditionSubfield
      ensures ok <==> Accept(cfg, n, inNot, old(conditionSubfield))
      ensures ok ==> sql == Emit(cfg, n) && args == Args(n) && conditionSubfield == After(n, old(conditionSubfield))
      decreases n, 0
    {
      var l, r := n.left, n.right;
      if IsConditionNode(l) || IsConstant(l) { return false, [], []; }
      RangeParts(cfg, n, inNot, conditionSubfield);
      var leftOk, leftSql, leftArgs := WalkNode(l);
      if !leftOk || !r.ArrayLit? || |r.values| != 2 { return false, [], []; }
      var lowOk, lowSql, lowArgs := WalkNode(r.values[0]);
      if !lowOk { return false, [], []; }
      var highOk, highSql, highArgs := WalkNode(r.values[1]);
      if !highOk { return false, [], []; }
      if IsSpecPath(leftSql) && StartsWithNumber(lowArgs) && StartsWithNumber(highArgs) {
        leftSql := [CastOpen] + leftSql + [AsNumeric];
      }
      return true, RangeText(leftSql, lowSql, highSql), leftArgs + lowArgs + highArgs;
    }

    method WalkIsNull(n: Node) returns (ok: bool, sql: seq<Token>, args: seq<Arg>)
      requires n.Expr? && n.op.Is?
      modifies this`conditionSubfield
      ensures ok <==> Accept(cfg, n, inNot, old(conditionSubfield))
      ensures ok ==> sql == Emit(cfg, n) && args == Args(n) && conditionSubfield == After(n, old(conditionSubfield))
      decreases n, 0
    {
      if IsConstant(n.left) { return false, [], []; }
      ok, sql, args := WalkNode(n.left);
      conditionSubfield := "";
      sql := sql + [IsNullWords];
    }

    method WalkStringMatch(n: Node) returns (ok: bool, sql: seq<Token>, args: seq<Arg>)
      requires n.Expr? && (n.op.Like? || n.op.ILike?)
      modifies this`conditionSubfield
      ensures ok <==> Accept(cfg, n, inNot, old(conditionSubfield))
      ensures ok ==> sql == Emit(cfg, n) && args == Args(n) && conditionSubfield == After(n, old(conditionSubfield))
      decreases n, 0
    {
      if IsConditionNode(n.left) || (IsConstant(n.left) && IsConstant(n.right)) { return false, [], []; }
      var leftOk, leftSql, leftArgs := WalkNode(n.left);
      if !leftOk { return false, [], []; }
      var rightOk, rightSql, rightArgs := WalkNode(n.right);
      if !rightOk { return false, [], []; }
      var keyword := if n.op.ILike? then ILikeWord else LikeWord;
      return true, TestText(leftSql, keyword, rightSql), leftArgs + rightArgs;
    }

    method WalkArrayLiteral(n: Node) returns (ok: bool, sql: seq<Token>, args: seq<Arg>)
      requires n.ArrayLit?
      modifies this`conditionSubfield
      ensures ok <==> Accept(cfg, n, inNot, old(conditionSubfield))
      ensures ok ==> sql == Emit(cfg, n) && args == Args(n) && conditionSubfield == After(n, old(conditionSubfield))
      decreases n, 1
    {
      var itemsOk, placeholders, itemArgs := WalkValues(n);
      if !itemsOk { return false, [], []; }
      return true, [Open] + JoinItems(placeholders) + [Close], itemArgs;
    }
  }

  lemma NextItem(cfg: Config, a: Node, i: nat)
    requires a.ArrayLit? && i < |a.values|
    ensures ItemTokens(cfg, a)[..i + 1] == ItemTokens(cfg, a)[..i] + [Emit(cfg, a.values[i])]
    ensures Flatten(ItemArgs(a)[..i + 1]) == Flatten(ItemArgs(a)[..i]) + Args(a.values[i])
  {
    FlattenMore(ItemArgs(a)[..i], Args(a.values[i]));
    assert ItemArgs(a)[..i + 1] == ItemArgs(a)[..i] + [Args(a.values[i])];
  }

  /** Once a value is refused the array is. */
  lemma {:induction false} NotAllAccepted(cfg: Config, a: Node, i: nat, inNot: bool, sub: string)
    requires a.ArrayLit? && i <= |a.values| && !AcceptItems(cfg, a, i, inNot, sub)
    ensures !AcceptItems(cfg, a, |a.values|, inNot, sub)
    decreases |a.values| - i
  {
    if i < |a.values| { NotAllAccepted(cfg, a, i + 1, inNot, sub); }
  }

  /** What is accepted and written of an IN test that has passed the first checks. */
  lemma ListParts(cfg: Config, n: Node, inNot: bool, sub: string)
    requires n.Expr? && n.op.In? && !IsConditionNode(n.left) && !IsConstant(n.left)
    requires n.right.ArrayLit? ==> AllFit(ExpectedFor(n.left), n.right.values)
    ensures var r, middle := n.right, After(n.left, sub);
            && (Accept(cfg, n, inNot, sub) <==>
                  Accept(cfg, n.left, inNot, sub) && r.ArrayLit? && AcceptItems(cfg, r, |r.values|, inNot, middle))
            && (r.ArrayLit? ==>
                  && After(n, sub) == AfterItems(r, |r.values|, middle)
                  && Args(n) == Args(n.left) + Flatten(ItemArgs(r))
                  && Emit(cfg, n) ==
                     ListText(Casted(Emit(cfg, n.left), AllNumbers(Flatten(ItemArgs(r)))),
                              JoinItems(ItemTokens(cfg, r))))
  {
  }

  /** What is accepted and written of a BETWEEN test that has passed the first check. */
  lemma RangeParts(cfg: Config, n: Node, inNot: bool, sub: string)
    requires n.Expr? && n.op.Between? && !IsConditionNode(n.left) && !IsConstant(n.left)
    ensures !(n.right.ArrayLit? && |n.right.values| == 2) ==> !Accept(cfg, n, inNot, sub)
    ensures n.right.ArrayLit? && |n.right.values| == 2 ==>
              var low, high, middle := n.right.values[0], n.right.values[1], After(n.left, sub);
              && (Accept(cfg, n, inNot, sub) <==>
                    Accept(cfg, n.left, inNot, sub) && Accept(cfg, low, inNot, middle) &&
                    Accept(cfg, high, inNot, After(low, middle)))
              && After(n, sub) == After(high, After(low, middle))
              && Args(n) == Args(n.left) + Args(low) + Args(high)
              && Emit(cfg, n) ==
                 RangeText(Casted(Emit(cfg, n.left), StartsWithNumber(Args(low)) && StartsWithNumber(Args(high))),
                           Emit(cfg, low), Emit(cfg, high))
  {
    if n.right.ArrayLit? && |n.right.values| == 2 { BetweenItems(cfg, n.right, inNot, After(n.left, sub)); }
  }

  /** The two bounds, walked one by one, are the items of a pair. */
  lemma BetweenItems(cfg: Config, r: Node, inNot: bool, sub: string)
    requires r.ArrayLit? && |r.values| == 2
    ensures AcceptItems(cfg, r, 2, inNot, sub) <==>
              Accept(cfg, r.values[0], inNot, sub) && Accept(cfg, r.values[1], inNot, After(r.values[0], sub))
    ensures AfterItems(r, 2, sub) == After(r.values[1], After(r.values[0], sub))
    ensures Args(r) == Args(r.values[0]) + Args(r.values[1])
  {
    assert AfterItems(r, 1, sub) == After(r.values[0], sub);
    assert AcceptItems(cfg, r, 1, inNot, sub) == Accept(cfg, r.values[0], inNot, sub);
    var parts := ItemArgs(r);
    assert parts == [Args(r.values[0])] + [Args(r.values[1])];
    FlattenMore([Args(r.values[0])], Args(r.values[1]));
    FlattenMore([], Args(r.values[0]));
  }
}
