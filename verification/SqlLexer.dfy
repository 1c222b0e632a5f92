/**
 * The emitted text, taken apart into lexical pieces again: every accepted query is printed so that this gives its
 * tokens.
 */
module SqlLexer {
  import opened Common
  import opened Tsl
  import opened TslSafety

  // ---------------------------------------------------------------------------------------
  // The lexer
  // ---------------------------------------------------------------------------------------

  /** The name characters that the text begins with. */
  function Word(s: string): (w: string)
    ensures |w| <= |s| && s[..|w|] == w
  {
    if s != "" && KeyChar(s[0]) then [s[0]] + Word(s[1..]) else ""
  }

  /** What is left after `word`, if the text begins with it. */
  function Behind(s: string, word: string): (rest: Option<string>)
    ensures rest.Some? <==> HasPrefix(s, word)
    ensures rest.Some? ==> s == word + rest.value
  {
    if HasPrefix(s, word) then Some(s[|word|..]) else None
  }

  /** One piece and the text behind it. */
  type Piece = Option<(Token, string)>

  function Fixed(s: string, word: string, t: Token): (p: Piece) {
    var rest := Behind(s, word);
    if rest.Some? then Some((t, rest.value)) else None
  }

  /** A name between two words. */
  function Named(s: string, before: string, after: string): (r: Option<(string, string)>)
    ensures r.Some? ==> s == before + r.value.0 + after + r.value.1
  {
    var rest := Behind(s, before);
    if rest.None? then None
    else
      var name := Word(rest.value);
      var tail := Behind(rest.value[|name|..], after);
      if tail.None? then None else Some((name, tail.value))
  }

  const LABEL_HEAD := "(SELECT value FROM " + "resource_labels" + " WHERE " + "resource_labels" + ".resource_id = "
  const LABEL_TAIL := ".id AND " + "resource_labels" + ".key = "
  const CONDITION_HEAD := "(SELECT rc."
  const CONDITION_BODY := " FROM " + "resource_conditions" + " rc WHERE rc.resource_id = "
  const CONDITION_TAIL := ".id AND rc.type = "

  /** A bracket, or a select that runs up to its placeholder. */
  function BracketPiece(s: string): Piece {
    if HasPrefix(s, LABEL_HEAD) then
      var n := Named(s, LABEL_HEAD, LABEL_TAIL);
      if n.None? then None else Some((SelectLabel(n.value.0), n.value.1))
    else if HasPrefix(s, CONDITION_HEAD) then
      var n := Named(s, CONDITION_HEAD, CONDITION_BODY);
      if n.None? then None
      else
        var m := Named(n.value.1, "", CONDITION_TAIL);
        if m.None? then None else Some((SelectCondition(n.value.0, m.value.0), m.value.1))
    else Fixed(s, "(", Open)
  }

  /** An arrow with its key, or a minus. */
  function DashPiece(s: string): Piece {
    if HasPrefix(s, "->>'") then
      var n := Named(s, "->>'", "'");
      if n.None? then None else Some((ArrowText(n.value.0), n.value.1))
    else if HasPrefix(s, "->'") then
      var n := Named(s, "->'", "'");
      if n.None? then None else Some((Arrow(n.value.0), n.value.1))
    else Fixed(s, "-", MinusSign)
  }

  /** A word between blanks: told apart by its first letters. */
  function BlankPiece(s: string): Piece
    requires |s| >= 1
  {
    if |s| < 3 then None
    else
      match s[1]
      case 'O' => Fixed(s, " OR ", OrWord)
      case 'A' => if s[2] == 'N' then Fixed(s, " AND ", AndWord) else Fixed(s, " AS numeric)", AsNumeric)
      case 'I' =>
        if s[2] == 'S' then Fixed(s, " IS NULL", IsNullWords)
        else if s[2] == 'N' then Fixed(s, " IN ", InWord)
        else Fixed(s, " ILIKE ", ILikeWord)
      case 'B' => Fixed(s, " BETWEEN ", BetweenWord)
      case 'L' => Fixed(s, " LIKE ", LikeWord)
      case '=' => Fixed(s, " = ", CompareSign(Eq))
      case '!' => Fixed(s, " != ", CompareSign(Ne))
      case '<' => if s[2] == '=' then Fixed(s, " <= ", CompareSign(Le)) else Fixed(s, " < ", CompareSign(Lt))
      case '>' => if s[2] == '=' then Fixed(s, " >= ", CompareSign(Ge)) else Fixed(s, " > ", CompareSign(Gt))
      case _ => None
  }

  /** The column `spec`, or a column of a table. */
  function NamePiece(s: string): Piece {
    var name := Word(s);
    var rest := s[|name|..];
    if rest != "" && rest[0] == '.' then
      var field := Word(rest[1..]);
      Some((Column(name, field), rest[1..][|field|..]))
    else if name == "spec" then Some((Spec, rest))
    else None
  }

  function FirstPiece(s: string): Piece
    requires s != ""
  {
    match s[0]
    case '?' => Fixed(s, "?", Placeholder)
    case ')' => Fixed(s, ")", Close)
    case ',' => Fixed(s, ", ", Comma)
    case 'N' => if |s| > 1 && s[1] == 'U' then Fixed(s, "NULL", NullWord) else Fixed(s, "NOT ", NotWord)
    case 'C' => Fixed(s, "CAST(", CastOpen)
    case '(' => BracketPiece(s)
    case '-' => DashPiece(s)
    case ' ' => BlankPiece(s)
    case _ => NamePiece(s)
  }

  function Lex(s: string): Option<seq<Token>>
    decreases |s|
  {
    if s == "" then Some([])
    else
      var piece := FirstPiece(s);
      if piece.None? || |piece.value.1| >= |s| then None
      else
        var more := Lex(piece.value.1);
        if more.None? then None else Some([piece.value.0] + more.value)
  }

  // ---------------------------------------------------------------------------------------
  // What is printed is read back
  // ---------------------------------------------------------------------------------------

  /** The pieces that begin with a name. */
  predicate IsName(t: Token) {
    t.Spec? || t.Column?
  }

  /** Two names never stand side by side. */
  ghost predicate Separated(sql: seq<Token>) {
    forall i :: 0 <= i < |sql| - 1 && IsName(sql[i]) ==> !IsName(sql[i + 1])
  }

  /** What the text of the next piece, or the end, looks like. */
  ghost predicate Follows(t: Token, rest: string) {
    rest != "" ==>
      && (IsName(t) ==> !KeyChar(rest[0]) && rest[0] != '.')
      && (t.Open? ==> rest[0] != 'S') && (t.MinusSign? ==> rest[0] != '>')
  }

  lemma {:induction false} WordOf(w: string, rest: string)
    requires (forall i :: 0 <= i < |w| ==> KeyChar(w[i])) && (rest == "" || !KeyChar(rest[0]))
    ensures Word(w + rest) == w
  {
    if w == "" {
      assert w + rest == rest;
    } else {
      assert (w + rest)[1..] == w[1..] + rest;
      WordOf(w[1..], rest);
    }
  }

  lemma AfterPrefix(word: string, rest: string)
    ensures HasPrefix(word + rest, word) && Behind(word + rest, word) == Some(rest)
  {
    assert (word + rest)[..|word|] == word && (word + rest)[|word|..] == rest;
  }

  lemma NotPrefix(s: string, p: string, i: nat)
    requires i < |p| && (i < |s| ==> s[i] != p[i])
    ensures !HasPrefix(s, p)
  {
    if |p| <= |s| { assert s[..|p|][i] == s[i]; }
  }

  lemma NamedBack(before: string, name: string, after: string, rest: string)
    requires IsKey(name) && after != "" && !KeyChar(after[0])
    ensures Named(before + name + after + rest, before, after) == Some((name, rest))
  {
    var tail := name + (after + rest);
    assert before + name + after + rest == before + tail;
    AfterPrefix(before, tail);
    WordOf(name, after + rest);
    assert tail[|name|..] == after + rest;
    AfterPrefix(after, rest);
  }

  lemma FixedBack(word: string, t: Token, rest: string)
    ensures Fixed(word + rest, word, t) == Some((t, rest))
  {
    AfterPrefix(word, rest);
  }

  lemma BracketBack(cfg: Config, t: Token, rest: string)
    requires t.Open? || t.SelectLabel? || t.SelectCondition?
    requires Harmless(cfg, t) && IsKey(cfg.table) && Follows(t, rest)
    ensures TokenText(t)[0] == '(' && BracketPiece(TokenText(t) + rest) == Some((t, rest))
  {
    if t.Open? {
      OpenBack(rest);
    } else if t.SelectLabel? {
      LabelBack(t.table, rest);
    } else {
      ConditionBack(t.subfield, t.table, rest);
    }
  }

  lemma OpenBack(rest: string)
    requires rest != "" ==> rest[0] != 'S'
    ensures BracketPiece("(" + rest) == Some((Open, rest))
  {
    var s := "(" + rest;
    FixedBack("(", Open, rest);
    assert LABEL_HEAD[1] == 'S' && CONDITION_HEAD[1] == 'S';
    assert |s| > 1 ==> s[1] == rest[0];
    NotPrefix(s, LABEL_HEAD, 1);
    NotPrefix(s, CONDITION_HEAD, 1);
  }

  /** The parts of a text, however they are put together. */
  lemma Together(a: string, b: string, c: string, d: string, e: string, f: string, g: string, h: string, i: string)
    ensures a + b + c + d + e + f + g + h + i == (a + b + c + d + e) + f + (g + h + i)
  {
    assert a + b + c + d + e + f + g + h + i == a + b + c + d + e + f + (g + h + i);
  }

  lemma LabelText(table: string)
    ensures TokenText(SelectLabel(table)) == LABEL_HEAD + table + LABEL_TAIL
  {
    Together("(SELECT value FROM ", LABELS_TABLE, " WHERE ", LABELS_TABLE, ".resource_id = ", table, ".id AND ",
             LABELS_TABLE, ".key = ");
  }

  lemma LabelBack(table: string, rest: string)
    requires IsKey(table)
    ensures var t := SelectLabel(table);
            TokenText(t)[0] == '(' && BracketPiece(TokenText(t) + rest) == Some((t, rest))
  {
    LabelText(table);
    NamedBack(LABEL_HEAD, table, LABEL_TAIL, rest);
    HeadFirst(LABEL_HEAD, table, LABEL_TAIL, rest);
  }

  lemma HeadFirst(head: string, name: string, tail: string, rest: string)
    requires head != ""
    ensures HasPrefix(head + name + tail + rest, head) && (head + name + tail + rest)[0] == head[0]
  {
    assert head + name + tail + rest == head + (name + tail + rest);
    AfterPrefix(head, name + tail + rest);
  }

  lemma InTheMiddle(a: string, b: string, c: string, d: string, e: string, f: string)
    ensures a + b + c + d + e + f == a + (b + c + d) + (e + f)
  {
    assert a + b + c + d + e + f == a + b + c + d + (e + f);
  }

  lemma ConditionText(subfield: string, table: string)
    ensures TokenText(SelectCondition(subfield, table)) ==
            CONDITION_HEAD + subfield + CONDITION_BODY + (table + CONDITION_TAIL)
  {
    InTheMiddle(CONDITION_HEAD + subfield, " FROM ", CONDITIONS_TABLE, " rc WHERE rc.resource_id = ", table,
                CONDITION_TAIL);
  }

  lemma ConditionBack(subfield: string, table: string, rest: string)
    requires IsKey(table) && (subfield == STATUS || subfield in SUBFIELDS)
    ensures var t := SelectCondition(subfield, table);
            TokenText(t)[0] == '(' && BracketPiece(TokenText(t) + rest) == Some((t, rest))
  {
    var s := TokenText(SelectCondition(subfield, table)) + rest;
    var tail := "" + table + CONDITION_TAIL + rest;
    SubfieldIsKey(subfield);
    ConditionText(subfield, table);
    assert s == CONDITION_HEAD + subfield + CONDITION_BODY + tail;
    assert CONDITION_BODY[0] == ' ';
    NamedBack(CONDITION_HEAD, subfield, CONDITION_BODY, tail);
    NamedBack("", table, CONDITION_TAIL, rest);
    HeadFirst(CONDITION_HEAD, subfield, CONDITION_BODY, tail);
    NotLabelHead(s);
  }

  lemma NotLabelHead(s: string)
    requires HasPrefix(s, CONDITION_HEAD)
    ensures !HasPrefix(s, LABEL_HEAD)
  {
    assert s[8] == CONDITION_HEAD[8] == 'r';
    assert LABEL_HEAD[8] == 'v';
    NotPrefix(s, LABEL_HEAD, 8);
  }

  lemma SubfieldIsKey(subfield: string)
    requires subfield == STATUS || subfield in SUBFIELDS
    ensures IsKey(subfield)
  {
    if subfield == "last_updated_time" {
      assert forall i :: 0 <= i < 17 ==> KeyChar("last_updated_time"[i]);
    } else if subfield == "last_transition_time" {
      assert forall i :: 0 <= i < 20 ==> KeyChar("last_transition_time"[i]);
    } else if subfield == "observed_generation" {
      assert forall i :: 0 <= i < 19 ==> KeyChar("observed_generation"[i]);
    }
  }

  lemma ArrowBack(key: string, rest: string)
    requires IsKey(key)
    ensures DashPiece("->'" + key + "'" + rest) == Some((Arrow(key), rest))
    ensures DashPiece("->>'" + key + "'" + rest) == Some((ArrowText(key), rest))
  {
    NamedBack("->'", key, "'", rest);
    HeadFirst("->'", key, "'", rest);
    NamedBack("->>'", key, "'", rest);
    HeadFirst("->>'", key, "'", rest);
    var s := "->'" + key + "'" + rest;
    assert s[2] == '\'' && "->>'"[2] == '>';
    NotPrefix(s, "->>'", 2);
  }

  lemma MinusBack(rest: string)
    requires rest != "" ==> rest[0] != '>'
    ensures DashPiece("-" + rest) == Some((MinusSign, rest))
  {
    var s := "-" + rest;
    FixedBack("-", MinusSign, rest);
    assert |s| > 1 ==> s[1] == rest[0];
    NotPrefix(s, "->>'", 1);
    NotPrefix(s, "->'", 1);
  }

  lemma DashBack(t: Token, rest: string)
    requires t.MinusSign? || (t.Arrow? && IsKey(t.key)) || (t.ArrowText? && IsKey(t.key))
    requires Follows(t, rest)
    ensures TokenText(t)[0] == '-' && DashPiece(TokenText(t) + rest) == Some((t, rest))
  {
    if t.MinusSign? { MinusBack(rest); } else { ArrowBack(t.key, rest); }
  }

  lemma ColumnBack(table: string, name: string, rest: string)
    requires IsKey(table) && IsKey(name) && (rest != "" ==> !KeyChar(rest[0]))
    ensures NamePiece(table + "." + name + rest) == Some((Column(table, name), rest))
  {
    var tail := "." + (name + rest);
    assert table + "." + name + rest == table + tail;
    WordOf(table, tail);
    assert (table + tail)[|table|..] == tail && tail[1..] == name + rest;
    WordOf(name, rest);
    assert (name + rest)[|name|..] == rest;
  }

  lemma SpecBack(rest: string)
    requires rest != "" ==> !KeyChar(rest[0]) && rest[0] != '.'
    ensures NamePiece("spec" + rest) == Some((Spec, rest))
  {
    WordOf("spec", rest);
    assert ("spec" + rest)[|"spec"|..] == rest;
  }

  lemma NameBack(cfg: Config, t: Token, rest: string)
    requires IsName(t) && Harmless(cfg, t) && IsKey(cfg.table) && Follows(t, rest)
    ensures TokenText(t) != "" && KeyChar(TokenText(t)[0]) && NamePiece(TokenText(t) + rest) == Some((t, rest))
  {
    if t.Column? { ColumnBack(t.table, t.name, rest); } else { SpecBack(rest); }
  }

  /** The words between blanks. */
  predicate IsBlankWord(t: Token) {
    t in {OrWord, AndWord, IsNullWords, InWord, BetweenWord, LikeWord, ILikeWord, AsNumeric} || t.CompareSign?
  }

  lemma BlankBack(t: Token, rest: string)
    requires IsBlankWord(t)
    ensures TokenText(t)[0] == ' ' && BlankPiece(TokenText(t) + rest) == Some((t, rest))
  {
    FixedBack(TokenText(t), t, rest);
    var s, w := TokenText(t) + rest, TokenText(t);
    assert |w| >= 3 && s[0] == w[0] && s[1] == w[1] && s[2] == w[2];
  }

  /** The first character picks the piece. */
  lemma Dispatch(s: string)
    requires s != ""
    ensures s[0] == '(' ==> FirstPiece(s) == BracketPiece(s)
    ensures s[0] == '-' ==> FirstPiece(s) == DashPiece(s)
    ensures s[0] == ' ' ==> FirstPiece(s) == BlankPiece(s)
    ensures KeyChar(s[0]) ==> FirstPiece(s) == NamePiece(s)
  {
  }

  lemma PlainBack(t: Token, rest: string)
    requires t in {Placeholder, NullWord, Close, Comma, NotWord, CastOpen}
    ensures TokenText(t) != "" && FirstPiece(TokenText(t) + rest) == Some((t, rest))
  {
    var s, w := TokenText(t) + rest, TokenText(t);
    FixedBack(w, t, rest);
    assert s[0] == w[0] && (|w| > 1 ==> s[1] == w[1]);
  }

  lemma PieceBack(cfg: Config, t: Token, rest: string)
    requires Harmless(cfg, t) && IsKey(cfg.table) && Follows(t, rest)
    ensures TokenText(t) != "" && FirstPiece(TokenText(t) + rest) == Some((t, rest))
  {
    if t in {Placeholder, NullWord, Close, Comma, NotWord, CastOpen} {
      PlainBack(t, rest);
    } else {
      if t.Open? || t.SelectLabel? || t.SelectCondition? {
        BracketBack(cfg, t, rest);
      } else if t.MinusSign? || t.Arrow? || t.ArrowText? {
        DashBack(t, rest);
      } else if IsName(t) {
        NameBack(cfg, t, rest);
      } else {
        BlankBack(t, rest);
      }
      Dispatch(TokenText(t) + rest);
    }
  }

  /** How the text of a piece begins. */
  lemma PieceBegins(cfg: Config, t: Token)
    requires Harmless(cfg, t) && IsKey(cfg.table)
    ensures TokenText(t) != "" && TokenText(t)[0] !in {'S', '>', '.'} && (KeyChar(TokenText(t)[0]) <==> IsName(t))
  {
    if t.SelectLabel? || t.SelectCondition? {
      BracketBack(cfg, t, "");
    } else if t.Arrow? || t.ArrowText? {
      DashBack(t, "");
    } else if IsName(t) {
      NameBack(cfg, t, "");
      assert KeyChar(TokenText(t)[0]);
    }
  }

  lemma OneMorePiece(t: Token, text: string, more: seq<Token>)
    requires TokenText(t) != "" && FirstPiece(TokenText(t) + text) == Some((t, text)) && Lex(text) == Some(more)
    ensures Lex(TokenText(t) + text) == Some([t] + more)
  {
  }

  lemma NextFollows(cfg: Config, sql: seq<Token>)
    requires AllHarmless(cfg, sql) && IsKey(cfg.table) && Separated(sql) && sql != []
    ensures AllHarmless(cfg, sql[1..]) && Separated(sql[1..]) && Harmless(cfg, sql[0])
    ensures Follows(sql[0], SqlText(sql[1..]))
  {
    var rest := sql[1..];
    assert sql[0] in sql && forall u :: u in rest ==> u in sql;
    assert forall i :: 0 <= i < |rest| ==> rest[i] == sql[i + 1];
    if rest != [] { PieceBegins(cfg, rest[0]); }
  }

  /** A list of checked pieces is read back from its text. */
  lemma {:induction false} LexBack(cfg: Config, sql: seq<Token>)
    requires AllHarmless(cfg, sql) && IsKey(cfg.table) && Separated(sql)
    ensures Lex(SqlText(sql)) == Some(sql)
  {
    if sql != [] {
      var t, rest := sql[0], sql[1..];
      NextFollows(cfg, sql);
      LexBack(cfg, rest);
      PieceBack(cfg, t, SqlText(rest));
      OneMorePiece(t, SqlText(rest), rest);
      assert sql == [t] + rest;
    }
  }

  // ---------------------------------------------------------------------------------------
  // Emitted text
  // ---------------------------------------------------------------------------------------

  lemma SeparatedJoin(a: seq<Token>, t: Token, b: seq<Token>)
    requires Separated(a) && Separated(b) && !IsName(t)
    ensures Separated(a + [t] + b)
  {
    var all := a + [t] + b;
    forall i | 0 <= i < |all| - 1 && IsName(all[i]) ensures !IsName(all[i + 1]) {
      if i < |a| - 1 {
        assert all[i] == a[i] && all[i + 1] == a[i + 1];
      } else if i > |a| {
        var k := i - |a| - 1;
        assert all[i] == b[k] && all[i + 1] == b[k + 1];
      }
    }
  }

  lemma SeparatedBetween(t: Token, a: seq<Token>, u: Token)
    requires Separated(a) && !IsName(t) && !IsName(u)
    ensures Separated([t] + a + [u])
  {
    SeparatedJoin([], t, a);
    assert [] + [t] + a == [t] + a;
    SeparatedJoin([t] + a, u, []);
    assert [t] + a + [u] + [] == [t] + a + [u];
  }

  lemma {:induction false} SeparatedPath(keys: seq<string>)
    ensures Separated(PathTokens(keys)) && forall t :: t in PathTokens(keys) ==> !IsName(t)
  {
    if |keys| > 1 { SeparatedPath(keys[1..]); }
  }

  lemma SeparatedCast(sql: seq<Token>, numeric: bool)
    requires Separated(sql)
    ensures Separated(Casted(sql, numeric))
  {
    SeparatedBetween(CastOpen, sql, AsNumeric);
  }

  lemma {:induction false} SeparatedItems(parts: seq<seq<Token>>)
    requires forall i :: 0 <= i < |parts| ==> Separated(parts[i])
    ensures Separated(JoinItems(parts))
  {
    if |parts| > 1 {
      SeparatedItems(parts[1..]);
      SeparatedJoin(parts[0], Comma, JoinItems(parts[1..]));
    }
  }

  lemma SeparatedPair(left: seq<Token>, word: Token, right: seq<Token>)
    requires Separated(left) && Separated(right) && !IsName(word)
    ensures Separated(PairText(left, word, right))
  {
    SeparatedBetween(Open, left, Close);
    SeparatedBetween(Open, right, Close);
    SeparatedJoin([Open] + left + [Close], word, [Open] + right + [Close]);
    assert PairText(left, word, right) == [Open] + left + [Close] + [word] + ([Open] + right + [Close]);
  }

  lemma SeparatedUnary(first: Token, second: Token, sql: seq<Token>)
    requires Separated(sql) && !IsName(first) && !IsName(second)
    ensures Separated([first, second] + sql + [Close])
  {
    SeparatedBetween(second, sql, Close);
    SeparatedJoin([], first, [second] + sql + [Close]);
    assert [first, second] + sql + [Close] == [] + [first] + ([second] + sql + [Close]);
  }

  lemma SeparatedColumn(cfg: Config, name: string)
    ensures Separated(ColumnTokens(cfg, name))
  {
    if IsSpec(name) {
      var path := PathTokens(SpecKeys(name));
      SeparatedPath(SpecKeys(name));
      assert forall i :: 0 < i < |[Spec] + path| ==> ([Spec] + path)[i] == path[i - 1] && path[i - 1] in path;
    }
  }

  lemma {:induction false} EmittedSeparated(cfg: Config, n: Node)
    ensures Separated(Emit(cfg, n))
    decreases n, 3
  {
    match n
    case Identifier(name) => SeparatedColumn(cfg, name);
    case ArrayLit(_) =>
      ItemsSeparated(cfg, n);
      SeparatedBetween(Open, JoinItems(ItemTokens(cfg, n)), Close);
    case Expr(op, l, r) =>
      EmittedSeparated(cfg, l);
      EmittedSeparated(cfg, r);
      if op.And? || op.Or? {
        SeparatedPair(Emit(cfg, l), if op.And? then AndWord else OrWord, Emit(cfg, r));
      } else if op.Not? {
        SeparatedUnary(NotWord, Open, Emit(cfg, r));
      } else if op.Minus? {
        SeparatedUnary(Open, MinusSign, Emit(cfg, r));
      } else {
        TestSeparated(cfg, n);
      }
    case _ =>
  }

  lemma {:induction false} ItemsSeparated(cfg: Config, a: Node)
    requires a.ArrayLit?
    ensures Separated(JoinItems(ItemTokens(cfg, a)))
    decreases a, 0
  {
    forall i | 0 <= i < |a.values| ensures Separated(ItemTokens(cfg, a)[i]) { EmittedSeparated(cfg, a.values[i]); }
    SeparatedItems(ItemTokens(cfg, a));
  }

  lemma {:induction false} TestSeparated(cfg: Config, n: Node)
    requires n.Expr? && !n.op.And? && !n.op.Or? && !n.op.Not? && !n.op.Minus?
    requires Separated(Emit(cfg, n.left)) && Separated(Emit(cfg, n.right))
    ensures Separated(Emit(cfg, n))
    decreases n, 2
  {
    var l, r := n.left, n.right;
    match n.op
    case Compare(cmp) =>
      SeparatedCast(Emit(cfg, l), StartsWithNumber(Args(r)));
      SeparatedCast(Emit(cfg, r), StartsWithNumber(Args(l)));
      SeparatedJoin(Casted(Emit(cfg, l), StartsWithNumber(Args(r))), CompareSign(cmp),
                    Casted(Emit(cfg, r), StartsWithNumber(Args(l))));
    case Like => SeparatedJoin(Emit(cfg, l), LikeWord, Emit(cfg, r));
    case ILike => SeparatedJoin(Emit(cfg, l), ILikeWord, Emit(cfg, r));
    case Is =>
      SeparatedJoin(Emit(cfg, l), IsNullWords, []);
      assert Emit(cfg, l) + [IsNullWords] + [] == Emit(cfg, l) + [IsNullWords];
    case In => if r.ArrayLit? { ListSeparated(cfg, n); }
    case Between => if r.ArrayLit? && |r.values| == 2 { RangeSeparated(cfg, n); }
    case OtherOp(_) =>
  }

  lemma {:induction false} ListSeparated(cfg: Config, n: Node)
    requires n.Expr? && n.op.In? && n.right.ArrayLit? && Separated(Emit(cfg, n.left))
    ensures Separated(Emit(cfg, n))
    decreases n, 1
  {
    var left, items := Casted(Emit(cfg, n.left), AllNumbers(Args(n.right))), JoinItems(ItemTokens(cfg, n.right));
    SeparatedCast(Emit(cfg, n.left), AllNumbers(Args(n.right)));
    ItemsSeparated(cfg, n.right);
    SeparatedBetween(Open, items, Close);
    SeparatedJoin(left, InWord, [Open] + items + [Close]);
    assert ListText(left, items) == left + [InWord] + ([Open] + items + [Close]);
  }

  lemma {:induction false} RangeSeparated(cfg: Config, n: Node)
    requires n.Expr? && n.op.Between? && n.right.ArrayLit? && |n.right.values| == 2 && Separated(Emit(cfg, n.left))
    ensures Separated(Emit(cfg, n))
    decreases n, 1
  {
    var low, high := n.right.values[0], n.right.values[1];
    var numeric := StartsWithNumber(Args(low)) && StartsWithNumber(Args(high));
    var left := Casted(Emit(cfg, n.left), numeric);
    SeparatedCast(Emit(cfg, n.left), numeric);
    EmittedSeparated(cfg, low);
    EmittedSeparated(cfg, high);
    SeparatedJoin(Emit(cfg, low), AndWord, Emit(cfg, high));
    SeparatedJoin(left, BetweenWord, Emit(cfg, low) + [AndWord] + Emit(cfg, high));
    assert RangeText(left, Emit(cfg, low), Emit(cfg, high)) ==
           left + [BetweenWord] + (Emit(cfg, low) + [AndWord] + Emit(cfg, high));
  }

  /** The text of every accepted query consists of exactly the pieces that were emitted. */
  lemma TextComesBack(cfg: Config, n: Node)
    requires Accepted(cfg, n) && IsKey(cfg.table)
    ensures Lex(SqlText(Emit(cfg, n))) == Some(Emit(cfg, n))
  {
    EmittedHarmless(cfg, n, false, "");
    EmittedSeparated(cfg, n);
    LexBack(cfg, Emit(cfg, n));
  }
}
