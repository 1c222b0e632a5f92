/** Accepted queries that SQL reads otherwise than they were meant, or not at all. */
module TslWitnesses {
  import opened Common
  import opened Tsl
  import opened TslNames
  import opened TslSafety
  import opened SqlReader
  import opened TslMeaning

  /** A negated spec field compared with a number is accepted, and misread. */
  lemma MisreadAccepted(cfg: Config, key: string, cmp: Comparison, x: real)
    requires IsKey(key)
    ensures var n := Expr(Compare(cmp), Expr(Minus, Missing, Identifier(SPEC + key)), NumberLit(x));
            && Accepted(cfg, n) && IsQuery(n) && !HasEmptyIn(n)
            && ReadWhere(Emit(cfg, n)).Some? && ReadWhere(Emit(cfg, n)) != Some(QuerySql(cfg, n, 0, false))
  {
    var n := Expr(Compare(cmp), Expr(Minus, Missing, Identifier(SPEC + key)), NumberLit(x));
    SpecFieldAccepted(cfg, key);
    ReadAsMeant(cfg, n);
  }

  /** A field tested against the empty list is accepted, and cannot be read. */
  lemma UnreadableAccepted(cfg: Config, key: string)
    requires IsKey(key)
    ensures var n := Expr(In, Identifier(key), ArrayLit([]));
            Accepted(cfg, n) && IsQuery(n) && ReadWhere(Emit(cfg, n)).None?
  {
    KeyIsField(key);
    KeyAccepted(cfg, key, false, "");
    ReadAsMeant(cfg, Expr(In, Identifier(key), ArrayLit([])));
  }

  lemma SpecFieldAccepted(cfg: Config, key: string)
    requires IsKey(key)
    ensures IsSpecField(Identifier(SPEC + key)) && Accept(cfg, Identifier(SPEC + key), false, "")
    ensures After(Identifier(SPEC + key), "") == "" && ExpectedFor(Identifier(SPEC + key)).Untyped?
  {
    var name := SPEC + key;
    assert name[..|SPEC|] == SPEC && name[|SPEC|..] == key && name[1] == 'p' && name[4] == '.';
    assert LABELS[0] == 'l' && CONDITIONS[1] == 't' && name[0] == 's';
    assert '.' !in key;
    OnePart(key);
  }
}
