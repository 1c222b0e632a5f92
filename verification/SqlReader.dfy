/**
 * Reading the emitted text as SQL does: PostgreSQL's operator precedence (section 4.1.6 of the PostgreSQL 14 manual)
 * over the tokens, with the placeholders numbered from left to right.
 */
module SqlReader {
  import opened Common
  import opened Tsl

  datatype Sql =
    | ArgRef(i: nat)
    | SqlNull
    | SqlColumn(table: string, name: string)
    | SpecColumn
    | GetJson(doc: Sql, key: string)
    | GetText(doc: Sql, key: string)
    | LabelValue(table: string, labelKey: Sql)
    | ConditionValue(subfield: string, table: string, ctype: Sql)
    | CastNumeric(e: Sql)
    | Negative(e: Sql)
    | Compared(cmp: Comparison, l: Sql, r: Sql)
    | InList(e: Sql, items: seq<Sql>)
    | IsBetween(e: Sql, low: Sql, high: Sql)
    | Matches(insensitive: bool, l: Sql, r: Sql)
    | NullTest(e: Sql)
    | Both(l: Sql, r: Sql)
    | Either(l: Sql, r: Sql)
    | Negated(e: Sql)

  /** What was read, what is left, and the number of the next placeholder. */
  datatype Reading<T> = Failed | Read(value: T, rest: seq<Token>, next: nat)

  predicate Begins(ts: seq<Token>, t: Token) {
    ts != [] && ts[0] == t
  }

  // From the loosest to the tightest binding: OR, AND, NOT, IS, comparison, IN / BETWEEN / LIKE, -> and ->>,
  // unary minus.

  function ReadOr(ts: seq<Token>, k: nat): (r: Reading<Sql>)
    ensures r.Read? ==> |r.rest| < |ts|
    decreases |ts|, 20
  {
    var first := ReadAnd(ts, k);
    if first.Failed? then Failed else MoreOr(first.value, first.rest, first.next)
  }

  function MoreOr(e: Sql, ts: seq<Token>, k: nat): (r: Reading<Sql>)
    ensures r.Read? ==> |r.rest| <= |ts|
    decreases |ts|, 0
  {
    if !Begins(ts, OrWord) then Read(e, ts, k)
    else
      var next := ReadAnd(ts[1..], k);
      if next.Failed? then Failed else MoreOr(Either(e, next.value), next.rest, next.next)
  }

  function ReadAnd(ts: seq<Token>, k: nat): (r: Reading<Sql>)
    ensures r.Read? ==> |r.rest| < |ts|
    decreases |ts|, 19
  {
    var first := ReadNot(ts, k);
    if first.Failed? then Failed else MoreAnd(first.value, first.rest, first.next)
  }

  function MoreAnd(e: Sql, ts: seq<Token>, k: nat): (r: Reading<Sql>)
    ensures r.Read? ==> |r.rest| <= |ts|
    decreases |ts|, 0
  {
    if !Begins(ts, AndWord) then Read(e, ts, k)
    else
      var next := ReadNot(ts[1..], k);
      if next.Failed? then Failed else MoreAnd(Both(e, next.value), next.rest, next.next)
  }

  function ReadNot(ts: seq<Token>, k: nat): (r: Reading<Sql>)
    ensures r.Read? ==> |r.rest| < |ts|
    decreases |ts|, 18
  {
    if Begins(ts, NotWord) then
      var e := ReadNot(ts[1..], k);
      if e.Failed? then Failed else Read(Negated(e.value), e.rest, e.next)
    else ReadIs(ts, k)
  }

  function ReadIs(ts: seq<Token>, k: nat): (r: Reading<Sql>)
    ensures r.Read? ==> |r.rest| < |ts|
    decreases |ts|, 17
  {
    var e := ReadComparison(ts, k);
    if e.Failed? then Failed else MoreIs(e.value, e.rest, e.next)
  }

  function MoreIs(e: Sql, ts: seq<Token>, k: nat): (r: Reading<Sql>)
    ensures r.Read? ==> |r.rest| <= |ts|
    decreases |ts|, 0
  {
    if Begins(ts, IsNullWords) then MoreIs(NullTest(e), ts[1..], k) else Read(e, ts, k)
  }

  /** Comparison operators do not associate. */
  function ReadComparison(ts: seq<Token>, k: nat): (r: Reading<Sql>)
    ensures r.Read? ==> |r.rest| < |ts|
    decreases |ts|, 16
  {
    var l := ReadTest(ts, k);
    if l.Failed? then Failed
    else if l.rest == [] || !l.rest[0].CompareSign? then l
    else
      var r := ReadTest(l.rest[1..], l.next);
      if r.Failed? || (r.rest != [] && r.rest[0].CompareSign?) then Failed
      else Read(Compared(l.rest[0].cmp, l.value, r.value), r.rest, r.next)
  }

  /** BETWEEN, IN, LIKE and ILIKE do not associate either. */
  function ReadTest(ts: seq<Token>, k: nat): (r: Reading<Sql>)
    ensures r.Read? ==> |r.rest| < |ts|
    decreases |ts|, 15
  {
    var e := ReadPath(ts, k);
    if e.Failed? || e.rest == [] then e
    else
      match e.rest[0]
      case InWord => ReadInList(e.value, e.rest[1..], e.next)
      case BetweenWord => ReadBounds(e.value, e.rest[1..], e.next)
      case LikeWord => ReadPattern(false, e.value, e.rest[1..], e.next)
      case ILikeWord => ReadPattern(true, e.value, e.rest[1..], e.next)
      case _ => e
  }

  predicate StartsTest(ts: seq<Token>) {
    ts != [] && (ts[0].InWord? || ts[0].BetweenWord? || ts[0].LikeWord? || ts[0].ILikeWord?)
  }

  function ReadInList(e: Sql, ts: seq<Token>, k: nat): (r: Reading<Sql>)
    ensures r.Read? ==> |r.rest| < |ts|
    decreases |ts|, 30
  {
    if !Begins(ts, Open) then Failed
    else
      var items := ReadItems(ts[1..], k);
      if items.Failed? || !Begins(items.rest, Close) || StartsTest(items.rest[1..]) then Failed
      else Read(InList(e, items.value), items.rest[1..], items.next)
  }

  function ReadItems(ts: seq<Token>, k: nat): (r: Reading<seq<Sql>>)
    ensures r.Read? ==> |r.rest| < |ts|
    decreases |ts|, 29
  {
    var first := ReadOr(ts, k);
    if first.Failed? then Failed
    else if !Begins(first.rest, Comma) then Read([first.value], first.rest, first.next)
    else
      var more := ReadItems(first.rest[1..], first.next);
      if more.Failed? then Failed else Read([first.value] + more.value, more.rest, more.next)
  }

  function ReadBounds(e: Sql, ts: seq<Token>, k: nat): (r: Reading<Sql>)
    ensures r.Read? ==> |r.rest| < |ts|
    decreases |ts|, 14
  {
    var low := ReadPath(ts, k);
    if low.Failed? || !Begins(low.rest, AndWord) then Failed
    else
      var high := ReadPath(low.rest[1..], low.next);
      if high.Failed? || StartsTest(high.rest) then Failed
      else Read(IsBetween(e, low.value, high.value), high.rest, high.next)
  }

  function ReadPattern(insensitive: bool, e: Sql, ts: seq<Token>, k: nat): (r: Reading<Sql>)
    ensures r.Read? ==> |r.rest| < |ts|
    decreases |ts|, 14
  {
    var p := ReadPath(ts, k);
    if p.Failed? || StartsTest(p.rest) then Failed
    else Read(Matches(insensitive, e, p.value), p.rest, p.next)
  }

  function ReadPath(ts: seq<Token>, k: nat): (r: Reading<Sql>)
    ensures r.Read? ==> |r.rest| < |ts|
    decreases |ts|, 13
  {
    var e := ReadMinus(ts, k);
    if e.Failed? then Failed else MorePath(e.value, e.rest, e.next)
  }

  function MorePath(e: Sql, ts: seq<Token>, k: nat): (r: Reading<Sql>)
    ensures r.Read? ==> |r.rest| <= |ts|
    decreases |ts|, 0
  {
    if ts == [] then Read(e, ts, k)
    else
      match ts[0]
      case Arrow(key) => MorePath(GetJson(e, key), ts[1..], k)
      case ArrowText(key) => MorePath(GetText(e, key), ts[1..], k)
      case _ => Read(e, ts, k)
  }

  function ReadMinus(ts: seq<Token>, k: nat): (r: Reading<Sql>)
    ensures r.Read? ==> |r.rest| < |ts|
    decreases |ts|, 12
  {
    if Begins(ts, MinusSign) then
      var e := ReadMinus(ts[1..], k);
      if e.Failed? then Failed else Read(Negative(e.value), e.rest, e.next)
    else ReadAtom(ts, k)
  }

  function ReadAtom(ts: seq<Token>, k: nat): (r: Reading<Sql>)
    ensures r.Read? ==> |r.rest| < |ts|
    decreases |ts|, 11
  {
    if ts == [] then Failed
    else
      match ts[0]
      case Placeholder => Read(ArgRef(k), ts[1..], k + 1)
      case NullWord => Read(SqlNull, ts[1..], k)
      case Column(table, name) => Read(SqlColumn(table, name), ts[1..], k)
      case Spec => Read(SpecColumn, ts[1..], k)
      case SelectLabel(table) =>
        if |ts| >= 3 && ts[1] == Placeholder && ts[2] == Close
          then Read(LabelValue(table, ArgRef(k)), ts[3..], k + 1) else Failed
      case SelectCondition(subfield, table) =>
        if |ts| >= 3 && ts[1] == Placeholder && ts[2] == Close
          then Read(ConditionValue(subfield, table, ArgRef(k)), ts[3..], k + 1)
        else Failed
      case Open =>
        var e := ReadOr(ts[1..], k);
        if e.Failed? || !Begins(e.rest, Close) then Failed else Read(e.value, e.rest[1..], e.next)
      case CastOpen =>
        var e := ReadOr(ts[1..], k);
        if e.Failed? || !Begins(e.rest, AsNumeric) then Failed else Read(CastNumeric(e.value), e.rest[1..], e.next)
      case _ => Failed
  }

  /** A whole WHERE clause: nothing may be left over. */
  function ReadWhere(ts: seq<Token>): Option<Sql> {
    var r := ReadOr(ts, 0);
    if r.Read? && r.rest == [] then Some(r.value) else None
  }
}
