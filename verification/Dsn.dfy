/**
 * The printer of connection strings against a parser of them: the keyword/value rules of section 34.1.1.1 of the
 * PostgreSQL 14 manual.
 */
module Dsn {
  import opened Common

  datatype Param = Param(keyword: string, value: string)

  // ---------------------------------------------------------------------------------------
  // The parser
  // ---------------------------------------------------------------------------------------

  predicate IsBlank(c: char) {
    c in {' ', '\t', '\n', '\U{B}', '\U{C}', '\r'}
  }

  function SkipBlanks(s: string): (rest: string)
    ensures |rest| <= |s| && (rest != "" ==> !IsBlank(rest[0]))
  {
    if s != "" && IsBlank(s[0]) then SkipBlanks(s[1..]) else s
  }

  /** A keyword runs up to the equals sign or a blank. */
  function ReadKeyword(s: string): (r: (string, string))
    ensures |r.0| + |r.1| == |s|
  {
    if s == "" || s[0] == '=' || IsBlank(s[0]) then ("", s)
    else
      var (word, rest) := ReadKeyword(s[1..]);
      ([s[0]] + word, rest)
  }

  /** An unquoted value runs up to a blank; a backslash takes the next character as it is. */
  function ReadBare(s: string): (r: (string, string))
    ensures |r.1| <= |s|
  {
    if s == "" || IsBlank(s[0]) then ("", s)
    else if s[0] == '\\' then
      if |s| == 1 then ("", "")
      else
        var (value, rest) := ReadBare(s[2..]);
        ([s[1]] + value, rest)
    else
      var (value, rest) := ReadBare(s[1..]);
      ([s[0]] + value, rest)
  }

  /** A quoted value runs up to the next quote that no backslash takes; without one there is no value. */
  function ReadQuoted(s: string): (r: Option<(string, string)>)
    ensures r.Some? ==> |r.value.1| < |s|
  {
    if s == "" then None
    else if s[0] == '\'' then Some(("", s[1..]))
    else if s[0] == '\\' && |s| == 1 then None
    else
      var skipped := if s[0] == '\\' then 1 else 0;
      var more := ReadQuoted(s[skipped + 1..]);
      if more.None? then None else Some(([s[skipped]] + more.value.0, more.value.1))
  }

  function ReadValue(s: string): (r: Option<(string, string)>)
    ensures r.Some? ==> |r.value.1| <= |s|
  {
    if s != "" && s[0] == '\'' then ReadQuoted(s[1..]) else Some(ReadBare(s))
  }

  function Parse(s: string): Option<seq<Param>>
    decreases |s|
  {
    if s == "" then Some([])
    else if IsBlank(s[0]) then Parse(s[1..])
    else
      var (keyword, afterKeyword) := ReadKeyword(s);
      var equals := SkipBlanks(afterKeyword);
      if equals == "" || equals[0] != '=' then None
      else
        var value := ReadValue(SkipBlanks(equals[1..]));
        if value.None? then None
        else
          var more := Parse(value.value.1);
          if more.None? then None else Some([Param(keyword, value.value.0)] + more.value)
  }

  // ---------------------------------------------------------------------------------------
  // The printer
  // ---------------------------------------------------------------------------------------

  function ReplaceAll(s: string, c: char, to: string): string {
    if s == "" then "" else (if s[0] == c then to else [s[0]]) + ReplaceAll(s[1..], c, to)
  }

  predicate SimpleChar(c: char) {
    'a' <= c <= 'z' || 'A' <= c <= 'Z' || '0' <= c <= '9' || c == '.' || c == '-'
  }

  predicate IsSimple(s: string) {
    s != "" && forall i :: 0 <= i < |s| ==> SimpleChar(s[i])
  }

  function EscapeValue(value: string): string {
    if value == "" then "''"
    else
      var escaped := ReplaceAll(ReplaceAll(value, '\\', "\\\\"), '\'', "\\'");
      if IsSimple(escaped) then escaped else "'" + escaped + "'"
  }

  function Decimal(n: int): string {
    if n < 0 then "-" + Digits(-n) else Digits(n)
  }

  function Digits(n: nat): string {
    (if n < 10 then "" else Digits(n / 10)) + [('0' as int + n % 10) as char]
  }

  const DISABLE := "disable"

  datatype SslConfig = SslConfig(mode: string, rootCertFile: string)

  datatype DatabaseConfig = DatabaseConfig(host: string, port: int, name: string, username: string, password: string,
                                           ssl: SslConfig)

  /** The modes that the configuration admits. */
  predicate ModeOk(mode: string) {
    mode in {"disable", "require", "verify-ca", "verify-full"}
  }

  const HOST := "host"
  const PORT := "port"
  const DB_NAME := "dbname"
  const USER := "user"
  const PASSWORD := "password"
  const SSL_MODE := "sslmode"
  const SSL_ROOT_CERT := "sslrootcert"

  function FrontOf(c: DatabaseConfig): seq<Param> {
    [Param(HOST, c.host), Param(PORT, Decimal(c.port)), Param(DB_NAME, c.name), Param(USER, c.username),
     Param(PASSWORD, c.password)]
  }

  function SslOf(c: DatabaseConfig, ssl: bool): seq<Param> {
    if ssl && c.ssl.mode != DISABLE then
      [Param(SSL_MODE, c.ssl.mode)] +
      (if c.ssl.rootCertFile != "" then [Param(SSL_ROOT_CERT, c.ssl.rootCertFile)] else [])
    else [Param(SSL_MODE, DISABLE)]
  }

  /** What a connection string is to say. */
  function Parameters(c: DatabaseConfig, ssl: bool): seq<Param> {
    FrontOf(c) + SslOf(c, ssl)
  }

  /** `%s=%s` */
  function Assign(keyword: string, printed: string): string {
    keyword + "=" + printed
  }

  /** The connection string says exactly what the configuration says: no value swallows or adds a parameter. */
  method ConnectionString(c: DatabaseConfig, ssl: bool) returns (dsn: string)
    requires ModeOk(c.ssl.mode)
    ensures Parse(dsn) == Some(Parameters(c, ssl))
  {
    var params := SslParameters(c, ssl);
    var front :=
      [Assign(HOST, EscapeValue(c.host)), Assign(PORT, Decimal(c.port)), Assign(DB_NAME, EscapeValue(c.name)),
                  Assign(USER, EscapeValue(c.username)), Assign(PASSWORD, EscapeValue(c.password))];
    dsn := Join(front, " ") + " " + Join(params, " ");
    FrontPrints(c, front);
    JoinAppend(front, params, " ");
    PrintsAppend(FrontOf(c), front, SslOf(c, ssl), params);
    JoinComesBack(FrontOf(c) + SslOf(c, ssl), front + params);
  }

  method SslParameters(c: DatabaseConfig, ssl: bool) returns (params: seq<string>)
    requires ModeOk(c.ssl.mode)
    ensures Prints(SslOf(c, ssl), params)
  {
    params := [];
    if ssl && c.ssl.mode != DISABLE {
      params := params + [Assign(SSL_MODE, c.ssl.mode)];
      assert params == [Assign(SSL_MODE, c.ssl.mode)];
      ModePrints(c.ssl.mode);
      if c.ssl.rootCertFile != "" {
        RootCertPrints(c.ssl.rootCertFile);
        PrintsAppend([Param(SSL_MODE, c.ssl.mode)], params, [Param(SSL_ROOT_CERT, c.ssl.rootCertFile)],
                     [Assign(SSL_ROOT_CERT, EscapeValue(c.ssl.rootCertFile))]);
        params := params + [Assign(SSL_ROOT_CERT, EscapeValue(c.ssl.rootCertFile))];
      }
    } else {
      params := params + [Assign(SSL_MODE, DISABLE)];
      assert params == [Assign(SSL_MODE, DISABLE)] && SslOf(c, ssl) == [Param(SSL_MODE, DISABLE)];
      ModePrints(DISABLE);
    }
  }

  // ---------------------------------------------------------------------------------------
  // Values come back
  // ---------------------------------------------------------------------------------------

  /** The two replacements, one after the other, put a backslash before each backslash and each quote. */
  function Escaped(s: string): string {
    if s == "" then ""
    else EscapedFront(s[0]) + Escaped(s[1..])
  }

  lemma {:induction false} ReplaceAppend(a: string, b: string, c: char, to: string)
    ensures ReplaceAll(a + b, c, to) == ReplaceAll(a, c, to) + ReplaceAll(b, c, to)
  {
    if a == "" {
      assert a + b == b;
    } else {
      assert (a + b)[1..] == a[1..] + b;
      ReplaceAppend(a[1..], b, c, to);
    }
  }

  lemma {:induction false} ReplacementsEscape(s: string)
    ensures ReplaceAll(ReplaceAll(s, '\\', "\\\\"), '\'', "\\'") == Escaped(s)
  {
    if s != "" {
      var head := if s[0] == '\\' then "\\\\" else [s[0]];
      ReplaceAppend(head, ReplaceAll(s[1..], '\\', "\\\\"), '\'', "\\'");
      ReplacementsEscape(s[1..]);
      if s[0] == '\\' {
        assert ReplaceAll("\\\\"[1..], '\'', "\\'") == "\\";
      }
    }
  }

  function EscapedFront(c: char): string {
    if c == '\\' || c == '\'' then ['\\', c] else [c]
  }

  lemma Regroup(a: string, b: string, c: string)
    ensures a + b + c == a + (b + c)
  {
  }

  lemma {:induction false} QuotedComesBack(s: string, tail: string)
    requires tail != "" && tail[0] == '\''
    ensures ReadQuoted(Escaped(s) + tail) == Some((s, tail[1..]))
  {
    if s == "" {
      assert Escaped(s) + tail == tail;
    } else {
      QuotedComesBack(s[1..], tail);
      Regroup(EscapedFront(s[0]), Escaped(s[1..]), tail);
      FrontComesBack(s[0], Escaped(s[1..]) + tail);
      assert [s[0]] + s[1..] == s;
    }
  }

  lemma FrontComesBack(c: char, more: string)
    requires ReadQuoted(more).Some?
    ensures ReadQuoted(EscapedFront(c) + more) == Some(([c] + ReadQuoted(more).value.0, ReadQuoted(more).value.1))
  {
    if c == '\\' || c == '\'' { EscapedChar(c, more); } else { PlainChar(c, more); }
  }

  lemma EscapedChar(c: char, more: string)
    requires ReadQuoted(more).Some?
    ensures ReadQuoted(['\\', c] + more) == Some(([c] + ReadQuoted(more).value.0, ReadQuoted(more).value.1))
  {
    assert (['\\', c] + more)[2..] == more;
  }

  lemma PlainChar(c: char, more: string)
    requires ReadQuoted(more).Some? && c != '\\' && c != '\''
    ensures ReadQuoted([c] + more) == Some(([c] + ReadQuoted(more).value.0, ReadQuoted(more).value.1))
  {
    assert ([c] + more)[1..] == more;
  }

  lemma {:induction false} SimpleUnescaped(s: string)
    requires forall i :: 0 <= i < |Escaped(s)| ==> SimpleChar(Escaped(s)[i])
    ensures Escaped(s) == s
  {
    if s != "" {
      assert Escaped(s)[0] != '\\';
      assert Escaped(s)[1..] == Escaped(s[1..]);
      SimpleUnescaped(s[1..]);
    }
  }

  lemma {:induction false} SimpleComesBack(s: string, rest: string)
    requires (forall i :: 0 <= i < |s| ==> SimpleChar(s[i])) && (rest == "" || IsBlank(rest[0]))
    ensures ReadBare(s + rest) == (s, rest)
  {
    if s == "" {
      assert s + rest == rest;
    } else {
      assert (s + rest)[1..] == s[1..] + rest;
      SimpleComesBack(s[1..], rest);
      assert s == [s[0]] + s[1..];
    }
  }

  function Quoted(s: string): string { ['\''] + Escaped(s) + ['\''] }

  /** A printed value is quoted, or simple and as it is. */
  lemma PrintedForm(value: string)
    ensures EscapeValue(value) == Quoted(value) || (EscapeValue(value) == value && IsSimple(value))
  {
    ReplacementsEscape(value);
    if value == "" {
      assert EscapeValue(value) == ['\'', '\''] == Quoted(value);
    } else if IsSimple(Escaped(value)) {
      SimpleUnescaped(value);
    }
  }

  lemma QuotedValue(value: string, rest: string)
    ensures ReadValue(Quoted(value) + rest) == Some((value, rest))
  {
    var tail := ['\''] + rest;
    QuotedComesBack(value, tail);
    assert (Quoted(value) + rest)[1..] == Escaped(value) + tail;
    assert tail[1..] == rest;
  }

  /** Whatever the value, what is printed for it reads as it, and reading stops right behind. */
  lemma ValueComesBack(value: string, rest: string)
    requires rest == "" || IsBlank(rest[0])
    ensures var printed := EscapeValue(value) + rest;
            printed != "" && !IsBlank(printed[0]) && ReadValue(printed) == Some((value, rest))
  {
    PrintedForm(value);
    if EscapeValue(value) == Quoted(value) {
      QuotedValue(value, rest);
    } else {
      SimpleComesBack(value, rest);
      assert (value + rest)[0] == value[0];
    }
  }

  /** A simple value is printed as it is. */
  lemma {:induction false} SimplePrinted(s: string)
    requires IsSimple(s)
    ensures EscapeValue(s) == s
  {
    ReplacementsEscape(s);
    NothingToEscape(s);
  }

  lemma {:induction false} NothingToEscape(s: string)
    requires forall i :: 0 <= i < |s| ==> SimpleChar(s[i])
    ensures Escaped(s) == s
  {
    if s != "" { NothingToEscape(s[1..]); }
  }

  lemma {:induction false} DigitsSimple(n: nat)
    ensures IsSimple(Digits(n))
  {
    if n >= 10 { DigitsSimple(n / 10); }
  }

  lemma DecimalPrinted(n: int)
    ensures EscapeValue(Decimal(n)) == Decimal(n)
  {
    DigitsSimple(if n < 0 then -n else n);
    SimplePrinted(Decimal(n));
  }

  lemma ModePrinted(mode: string)
    requires ModeOk(mode)
    ensures EscapeValue(mode) == mode
  {
    SimplePrinted(mode);
  }

  // ---------------------------------------------------------------------------------------
  // Parameters come back
  // ---------------------------------------------------------------------------------------

  predicate IsKeyword(s: string) {
    s != "" && forall i :: 0 <= i < |s| ==> 'a' <= s[i] <= 'z'
  }

  lemma {:induction false} KeywordComesBack(keyword: string, rest: string)
    requires (forall i :: 0 <= i < |keyword| ==> 'a' <= keyword[i] <= 'z') && rest != "" && rest[0] == '='
    ensures ReadKeyword(keyword + rest) == (keyword, rest)
  {
    if keyword == "" {
      assert keyword + rest == rest;
    } else {
      assert (keyword + rest)[1..] == keyword[1..] + rest;
      KeywordComesBack(keyword[1..], rest);
      assert keyword == [keyword[0]] + keyword[1..];
    }
  }

  /** A keyword, an equals sign and what reads as a value. */
  lemma AssignmentReads(keyword: string, value: string, printed: string, rest: string, more: seq<Param>)
    requires IsKeyword(keyword) && printed != "" && !IsBlank(printed[0])
    requires ReadValue(printed) == Some((value, rest)) && Parse(rest) == Some(more)
    ensures Parse(keyword + ("=" + printed)) == Some([Param(keyword, value)] + more)
  {
    var tail := "=" + printed;
    KeywordComesBack(keyword, tail);
    assert tail[1..] == printed;
    assert (keyword + tail)[0] == keyword[0];
  }

  /** One printed parameter, followed by the end or a blank, is read first. */
  lemma ParamComesBack(keyword: string, value: string, rest: string, more: seq<Param>)
    requires IsKeyword(keyword) && (rest == "" || IsBlank(rest[0])) && Parse(rest) == Some(more)
    ensures Parse(Assign(keyword, EscapeValue(value)) + rest) == Some([Param(keyword, value)] + more)
  {
    ValueComesBack(value, rest);
    AssignmentReads(keyword, value, EscapeValue(value) + rest, rest, more);
    Regroup(keyword + "=", EscapeValue(value), rest);
    Regroup(keyword, "=", EscapeValue(value) + rest);
  }

  lemma LastParam(keyword: string, value: string)
    requires IsKeyword(keyword)
    ensures Parse(Assign(keyword, EscapeValue(value))) == Some([Param(keyword, value)])
  {
    ParamComesBack(keyword, value, "", []);
    assert Assign(keyword, EscapeValue(value)) + "" == Assign(keyword, EscapeValue(value));
    assert [Param(keyword, value)] + [] == [Param(keyword, value)];
  }

  lemma AnotherParam(keyword: string, value: string, s: string, more: seq<Param>)
    requires IsKeyword(keyword) && Parse(s) == Some(more)
    ensures Parse(Assign(keyword, EscapeValue(value)) + " " + s) == Some([Param(keyword, value)] + more)
  {
    assert (" " + s)[1..] == s;
    assert Parse(" " + s) == Parse(s);
    ParamComesBack(keyword, value, " " + s, more);
    assert Assign(keyword, EscapeValue(value)) + (" " + s) == Assign(keyword, EscapeValue(value)) + " " + s;
  }

  /** The text is the print of the parameter. */
  ghost predicate PrintsOne(p: Param, text: string) {
    IsKeyword(p.keyword) && text == Assign(p.keyword, EscapeValue(p.value))
  }

  ghost predicate Prints(stated: seq<Param>, printed: seq<string>) {
    |stated| == |printed| && stated != [] && forall i :: 0 <= i < |stated| ==> PrintsOne(stated[i], printed[i])
  }

  lemma PrintsAppend(a: seq<Param>, pa: seq<string>, b: seq<Param>, pb: seq<string>)
    requires Prints(a, pa) && Prints(b, pb)
    ensures Prints(a + b, pa + pb)
  {
    forall i | 0 <= i < |a + b| ensures PrintsOne((a + b)[i], (pa + pb)[i]) {
      if i < |a| { assert PrintsOne(a[i], pa[i]); } else { assert PrintsOne(b[i - |a|], pb[i - |a|]); }
    }
  }

  lemma ModePrints(mode: string)
    requires ModeOk(mode)
    ensures Prints([Param(SSL_MODE, mode)], [Assign(SSL_MODE, mode)])
  {
    KeywordsOk();
    ModePrinted(mode);
  }

  lemma RootCertPrints(file: string)
    ensures Prints([Param(SSL_ROOT_CERT, file)], [Assign(SSL_ROOT_CERT, EscapeValue(file))])
  {
    KeywordsOk();
  }

  lemma FrontPrints(c: DatabaseConfig, front: seq<string>)
    requires front ==
             [Assign(HOST, EscapeValue(c.host)), Assign(PORT, Decimal(c.port)), Assign(DB_NAME, EscapeValue(c.name)),
                       Assign(USER, EscapeValue(c.username)), Assign(PASSWORD, EscapeValue(c.password))]
    ensures Prints(FrontOf(c), front)
  {
    KeywordsOk();
    DecimalPrinted(c.port);
  }

  /** Printed parameters, joined by blanks, read as the parameters. */
  lemma {:induction false} JoinComesBack(stated: seq<Param>, printed: seq<string>)
    requires Prints(stated, printed)
    ensures Parse(Join(printed, " ")) == Some(stated)
  {
    var first := stated[0];
    assert stated == [first] + stated[1..];
    assert PrintsOne(first, printed[0]);
    if |stated| == 1 {
      LastParam(first.keyword, first.value);
    } else {
      forall i | 0 <= i < |stated[1..]| ensures PrintsOne(stated[1..][i], printed[1..][i]) {
        assert PrintsOne(stated[i + 1], printed[i + 1]);
      }
      JoinComesBack(stated[1..], printed[1..]);
      AnotherParam(first.keyword, first.value, Join(printed[1..], " "), stated[1..]);
    }
  }

  lemma {:induction false} JoinAppend(a: seq<string>, b: seq<string>, separator: string)
    requires a != [] && b != []
    ensures Join(a, separator) + separator + Join(b, separator) == Join(a + b, separator)
  {
    if |a| == 1 {
      assert (a + b)[1..] == b;
    } else {
      JoinAppend(a[1..], b, separator);
      assert (a + b)[1..] == a[1..] + b;
      assert Join(a, separator) + separator + Join(b, separator) ==
             a[0] + separator + (Join(a[1..], separator) + separator + Join(b, separator));
    }
  }

  lemma KeywordsOk()
    ensures IsKeyword(HOST) && IsKeyword(PORT) && IsKeyword(DB_NAME) && IsKeyword(USER) && IsKeyword(PASSWORD)
    ensures IsKeyword(SSL_MODE) && IsKeyword(SSL_ROOT_CERT)
  {
  }

  // ---------------------------------------------------------------------------------------
  // What the parameters say
  // ---------------------------------------------------------------------------------------

  /** The value of a parameter that occurs once; none if it does not occur. */
  ghost predicate Says(params: seq<Param>, keyword: string, value: Option<string>) {
    if value.None? then forall i :: 0 <= i < |params| ==> params[i].keyword != keyword
    else exists i :: OnlyAt(params, keyword, i) && params[i].value == value.value
  }

  ghost predicate OnlyAt(params: seq<Param>, keyword: string, i: int) {
    && 0 <= i < |params| && params[i].keyword == keyword
    && forall j :: 0 <= j < |params| && j != i ==> params[j].keyword != keyword
  }

  /** The number that a decimal numeral stands for. */
  function NumberOf(digits: string): nat
    requires forall i :: 0 <= i < |digits| ==> '0' <= digits[i] <= '9'
  {
    if digits == "" then 0
    else NumberOf(digits[..|digits| - 1]) * 10 + (digits[|digits| - 1] as int - '0' as int)
  }

  /** The digits of a number, without leading zeros. */
  ghost predicate AreDigitsOf(text: string, n: nat) {
    && text != "" && (forall i :: 0 <= i < |text| ==> '0' <= text[i] <= '9')
    && NumberOf(text) == n && (n > 0 ==> text[0] != '0')
  }

  lemma {:induction false} DigitsMean(n: nat)
    ensures AreDigitsOf(Digits(n), n)
  {
    var tens, digit := n / 10, n % 10;
    if tens == 0 {
      OneDigit(n);
    } else {
      DigitsMean(tens);
      OneMoreDigit(Digits(tens), tens, digit);
    }
  }

  lemma OneDigit(digit: nat)
    requires digit < 10
    ensures AreDigitsOf("" + [('0' as int + digit) as char], digit)
  {
    var text := "" + [('0' as int + digit) as char];
    assert |text| == 1 && text[..0] == "";
    assert NumberOf(text) == NumberOf("") * 10 + digit;
  }

  lemma OneMoreDigit(text: string, n: nat, digit: nat)
    requires AreDigitsOf(text, n) && n > 0 && digit < 10
    ensures AreDigitsOf(text + [('0' as int + digit) as char], n * 10 + digit)
  {
    var longer := text + [('0' as int + digit) as char];
    assert longer[..|longer| - 1] == text;
  }

  /** The numeral of a port: its digits, after a minus sign if it is negative. */
  ghost predicate IsNumeral(text: string, n: int) {
    if n < 0 then text != "" && text[0] == '-' && AreDigitsOf(text[1..], -n) else AreDigitsOf(text, n)
  }

  lemma DecimalMeans(n: int)
    ensures IsNumeral(Decimal(n), n)
  {
    if n < 0 {
      DigitsMean(-n);
      assert Decimal(n)[1..] == Digits(-n);
    } else {
      DigitsMean(n);
    }
  }

  /** Each field of the configuration goes under the keyword that PostgreSQL has for it. */
  ghost predicate SaysFields(params: seq<Param>, c: DatabaseConfig) {
    && Says(params, "host", Some(c.host)) && Says(params, "dbname", Some(c.name))
    && Says(params, "user", Some(c.username)) && Says(params, "password", Some(c.password))
    && exists port :: IsNumeral(port, c.port) && Says(params, "port", Some(port))
  }

  /** The mode, and the certificate where the mode looks at one. */
  ghost predicate SaysSsl(params: seq<Param>, c: DatabaseConfig, ssl: bool) {
    var mode := if ssl then c.ssl.mode else "disable";
    && Says(params, "sslmode", Some(mode))
    && Says(params, "sslrootcert",
            if mode != "disable" && c.ssl.rootCertFile != "" then Some(c.ssl.rootCertFile) else None)
  }

  lemma ParametersMean(c: DatabaseConfig, ssl: bool)
    ensures SaysFields(Parameters(c, ssl), c) && SaysSsl(Parameters(c, ssl), c, ssl)
    ensures forall i :: 0 <= i < |Parameters(c, ssl)| ==> Parameters(c, ssl)[i].keyword in KEYWORDS
  {
    InOrder(c, ssl);
    FieldsMean(c, ssl);
    SslMeans(c, ssl);
  }

  lemma FieldsMean(c: DatabaseConfig, ssl: bool)
    ensures SaysFields(Parameters(c, ssl), c)
  {
    var params := Parameters(c, ssl);
    InOrder(c, ssl);
    DecimalMeans(c.port);
    SaysAt(params, 0, "host", c.host);
    SaysAt(params, 1, "port", Decimal(c.port));
    SaysAt(params, 2, "dbname", c.name);
    SaysAt(params, 3, "user", c.username);
    SaysAt(params, 4, "password", c.password);
  }

  lemma SslMeans(c: DatabaseConfig, ssl: bool)
    ensures SaysSsl(Parameters(c, ssl), c, ssl)
  {
    var params := Parameters(c, ssl);
    InOrder(c, ssl);
    SaysAt(params, 5, "sslmode", if ssl then c.ssl.mode else "disable");
    if |params| > 6 { SaysAt(params, 6, "sslrootcert", c.ssl.rootCertFile); } else { SaysNot(params); }
  }

  /** The keywords come in this order, as far as there are parameters. */
  ghost predicate Ordered(params: seq<Param>) {
    6 <= |params| <= 7 && forall i :: 0 <= i < |params| ==> params[i].keyword == KEYWORDS[i]
  }

  lemma InOrder(c: DatabaseConfig, ssl: bool)
    ensures Ordered(Parameters(c, ssl))
  {
  }

  lemma SaysAt(params: seq<Param>, i: int, keyword: string, value: string)
    requires Ordered(params) && 0 <= i < |params| && params[i] == Param(keyword, value)
    ensures Says(params, keyword, Some(value))
  {
    KeywordsDiffer();
    OnlyThere(params, KEYWORDS, i);
  }

  lemma SaysNot(params: seq<Param>)
    requires Ordered(params) && |params| == 6
    ensures Says(params, KEYWORDS[6], None)
  {
    KeywordsDiffer();
  }

  lemma OnlyThere(params: seq<Param>, keywords: seq<string>, i: int)
    requires Distinct(keywords) && 0 <= i < |params| <= |keywords|
    requires forall j :: 0 <= j < |params| ==> params[j].keyword == keywords[j]
    ensures OnlyAt(params, keywords[i], i)
  {
  }

  ghost const KEYWORDS := ["host", "port", "dbname", "user", "password", "sslmode", "sslrootcert"]

  lemma KeywordsDiffer()
    ensures Distinct(KEYWORDS)
  {
    assert "host"[0] == 'h' && "dbname"[0] == 'd' && "user"[0] == 'u' && "port"[1] == 'o' && "password"[1] == 'a';
    assert |"sslmode"| != |"sslrootcert"| && "sslmode"[0] == 's' && "sslrootcert"[0] == 's' && |"port"| == 4;
  }
}
