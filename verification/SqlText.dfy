/** The text of the INSERT statements of a migration (`src/db/migrate.rs`), and how the target reads it. */
module SqlText {
  import opened Wrappers
  import opened Text

  datatype Dialect = Postgres | MySql

  /** The cells whose text is built in this file; dates, floats and decimals are formatted elsewhere. */
  datatype Cell = NullCell | BoolCell(b: bool) | IntCell(n: int) | TextCell(s: string) | BytesCell(bytes: seq<byte>)

  type Row = seq<Cell>

  // ---- printing -------------------------------------------------------

  /** `replace(c, with)`. */
  function Replace(s: string, c: char, with: string): string {
    if s == "" then "" else (if s[0] == c then with else [s[0]]) + Replace(s[1..], c, with)
  }

  /** `mysql_escape_str`: five replacements over the whole text, one after the other. */
  function MysqlEscape(s: string): string {
    var s1 := Replace(s, '\\', "\\\\");
    var s2 := Replace(s1, '\'', "\\'");
    var s3 := Replace(s2, '\0', "\\0");
    var s4 := Replace(s3, '\n', "\\n");
    Replace(s4, '\r', "\\r")
  }

  function EscapeText(d: Dialect, s: string): string {
    match d
    case Postgres => Replace(s, '\'', "''")
    case MySql => MysqlEscape(s)
  }

  function HexDigit(n: nat): (c: char)
    requires n < 16
    ensures HexValue(c) == Some(n)
  {
    "0123456789abcdef"[n]
  }

  function HexValue(c: char): (r: Option<nat>)
    ensures r.Some? ==> r.value < 16
  {
    if '0' <= c <= '9' then Some(c as int - '0' as int)
    else if 'a' <= c <= 'f' then Some(c as int - 'a' as int + 10)
    else if 'A' <= c <= 'F' then Some(c as int - 'A' as int + 10)
    else None
  }

  function HexEncode(bytes: seq<byte>): string {
    if bytes == [] then "" else [HexDigit(bytes[0] / 16), HexDigit(bytes[0] % 16)] + HexEncode(bytes[1..])
  }

  /** `cell_to_pg_literal` and `cell_to_mysql_literal`. */
  function Literal(d: Dialect, cell: Cell): string {
    match cell
    case NullCell => "NULL"
    case BoolCell(b) => if d.Postgres? then if b then "TRUE" else "FALSE" else if b then "1" else "0"
    case IntCell(n) => IntText(n)
    case TextCell(s) => "'" + EscapeText(d, s) + "'"
    case BytesCell(bytes) => (if d.Postgres? then "'\\x" else "X'") + HexEncode(bytes) + "'"
  }

  function QuoteChar(d: Dialect): char {
    if d.Postgres? then '"' else '`'
  }

  /** `pg_ident` and `mysql_ident`. */
  function Ident(d: Dialect, name: string): string {
    var q := QuoteChar(d);
    [q] + Replace(name, q, [q, q]) + [q]
  }

  function Literals(d: Dialect, row: Row): seq<string> {
    if row == [] then [] else [Literal(d, row[0])] + Literals(d, row[1..])
  }

  function RowTexts(d: Dialect, batch: seq<Row>): seq<string> {
    if batch == [] then [] else ["(" + Join(Literals(d, batch[0]), ", ") + ")"] + RowTexts(d, batch[1..])
  }

  function Idents(d: Dialect, names: seq<string>): seq<string> {
    if names == [] then [] else [Ident(d, names[0])] + Idents(d, names[1..])
  }

  function ValuesText(d: Dialect, batch: seq<Row>): string {
    Join(RowTexts(d, batch), ", ")
  }

  /** The statement that `insert_pg_batch` and `insert_mysql_batch` send. */
  function InsertText(d: Dialect, table: string, columns: seq<string>, batch: seq<Row>): string {
    "INSERT INTO " + Ident(d, table) + " (" + Join(Idents(d, columns), ", ") + ") VALUES " + ValuesText(d, batch)
  }

  // ---- reading --------------------------------------------------------

  datatype Token = NullToken | BoolToken(b: bool) | NumberToken(n: int) | StringToken(s: string) | HexToken(bytes: seq<byte>)

  /** What MySQL reads for a backslash followed by `c`. */
  function Unescape(c: char): string {
    match c
    case '0' => "\0"
    case 'n' => "\n"
    case 'r' => "\r"
    case 't' => "\t"
    case 'b' => "\U{0008}"
    case 'Z' => "\U{001A}"
    case '%' => "\\%"
    case '_' => "\\_"
    case _ => [c]
  }

  /** The rest of a text quoted with `q`: a doubled quote stands for one, and backslashes escape if told so. */
  function ReadQuoted(q: char, backslash: bool, s: string, out: string): Option<(string, string)>
    decreases |s|
  {
    if s == "" then None
    else if s[0] == q then
      if |s| > 1 && s[1] == q then ReadQuoted(q, backslash, s[2..], out + [q]) else Some((out, s[1..]))
    else if s[0] == '\\' && backslash then
      if |s| == 1 then None else ReadQuoted(q, backslash, s[2..], out + Unescape(s[1]))
    else ReadQuoted(q, backslash, s[1..], out + [s[0]])
  }

  function ReadHex(s: string): Option<seq<byte>> {
    if s == "" then Some([])
    else if |s| == 1 then None
    else
      var high :- HexValue(s[0]);
      var low :- HexValue(s[1]);
      var rest :- ReadHex(s[2..]);
      var first: int := high * 16 + low;
      Some([first] + rest)
  }

  /** The number at the front of `s`. */
  function NumberPrefix(s: string): (n: nat)
    ensures n <= |s|
  {
    if s != "" && (IsDigit(s[0]) || s[0] == '-') then 1 + NumberPrefix(s[1..]) else 0
  }

  /** One literal under the dialect's rules; PostgreSQL takes no NUL character in a text. */
  function ReadToken(d: Dialect, s: string): Option<(Token, string)> {
    if s == "" then None
    else
      match s[0]
      case '\'' =>
        var (text, rest) :- ReadQuoted('\'', d.MySql?, s[1..], "");
        if d.Postgres? && '\0' in text then None else Some((StringToken(text), rest))
      case 'N' => ReadWord("NULL", NullToken, s)
      case 'T' => ReadWord("TRUE", BoolToken(true), s)
      case 'F' => ReadWord("FALSE", BoolToken(false), s)
      case 'X' =>
        if d.Postgres? || |s| == 1 || s[1] != '\'' then None
        else
          var (digits, rest) :- ReadQuoted('\'', true, s[2..], "");
          var bytes :- ReadHex(digits);
          Some((HexToken(bytes), rest))
      case _ =>
        var n := NumberPrefix(s);
        var number :- ReadInt(s[..n]);
        Some((NumberToken(number), s[n..]))
  }

  function ReadWord(word: string, token: Token, s: string): Option<(Token, string)> {
    var rest :- Expect(word, s);
    Some((token, rest))
  }

  /** The type of a column. */
  datatype Kind = BoolKind | IntKind | TextKind | BytesKind

  /** The cell that a column of the given type stores for a literal. */
  function Store(d: Dialect, kind: Kind, token: Token): Option<Cell> {
    match (kind, token)
    case (_, NullToken) => Some(NullCell)
    case (BoolKind, BoolToken(b)) => Some(BoolCell(b))
    case (BoolKind, NumberToken(n)) => if d.MySql? then Some(BoolCell(n != 0)) else None
    case (IntKind, NumberToken(n)) => Some(IntCell(n))
    case (TextKind, StringToken(s)) => Some(TextCell(s))
    case (BytesKind, HexToken(bytes)) => Some(BytesCell(bytes))
    case (BytesKind, StringToken(s)) =>
      if d.Postgres? && "\\x" <= s then
        var bytes :- ReadHex(s[2..]);
        Some(BytesCell(bytes))
      else None
    case _ => None
  }

  predicate Fits(kind: Kind, cell: Cell) {
    match cell
    case NullCell => true
    case BoolCell(_) => kind.BoolKind?
    case IntCell(_) => kind.IntKind?
    case TextCell(_) => kind.TextKind?
    case BytesCell(_) => kind.BytesKind?
  }

  ghost predicate RowFits(kinds: seq<Kind>, row: Row) {
    |row| == |kinds| && forall i | 0 <= i < |row| :: Fits(kinds[i], row[i])
  }

  /** The target has no text for this cell. */
  predicate IsRefused(d: Dialect, cell: Cell) {
    d.Postgres? && cell.TextCell? && '\0' in cell.s
  }

  predicate Accepts(d: Dialect, row: Row) {
    forall i | 0 <= i < |row| :: !IsRefused(d, row[i])
  }

  predicate AcceptsAll(d: Dialect, batch: seq<Row>) {
    forall i | 0 <= i < |batch| :: Accepts(d, batch[i])
  }

  function Expect(prefix: string, s: string): Option<string> {
    if prefix <= s then Some(s[|prefix|..]) else None
  }

  /** The cells of a row whose opening parenthesis has been read, and its closing one. */
  function ReadCells(d: Dialect, kinds: seq<Kind>, s: string): Option<(Row, string)>
    decreases |kinds|
  {
    if kinds == [] then
      var rest :- Expect(")", s);
      Some(([], rest))
    else
      var (token, after) :- ReadToken(d, s);
      var cell :- Store(d, kinds[0], token);
      if |kinds| == 1 then
        var rest :- Expect(")", after);
        Some(([cell], rest))
      else
        var next :- Expect(", ", after);
        var (cells, rest) :- ReadCells(d, kinds[1..], next);
        Some(([cell] + cells, rest))
  }

  /** Rows up to the end of the text; `fuel` bounds their number. */
  function ReadRows(d: Dialect, kinds: seq<Kind>, s: string, fuel: nat): Option<seq<Row>>
    decreases fuel
  {
    if fuel == 0 then None
    else
      var open :- Expect("(", s);
      var (row, rest) :- ReadCells(d, kinds, open);
      if rest == "" then Some([row])
      else
        var next :- Expect(", ", rest);
        var rows :- ReadRows(d, kinds, next, fuel - 1);
        Some([row] + rows)
  }

  function ReadIdent(d: Dialect, s: string): Option<(string, string)> {
    var open :- Expect([QuoteChar(d)], s);
    ReadQuoted(QuoteChar(d), false, open, "")
  }

  /** `count` identifiers and the closing parenthesis. */
  function ReadIdents(d: Dialect, count: nat, s: string): Option<(seq<string>, string)> {
    if count == 0 then
      var rest :- Expect(")", s);
      Some(([], rest))
    else
      var (name, after) :- ReadIdent(d, s);
      if count == 1 then
        var rest :- Expect(")", after);
        Some(([name], rest))
      else
        var next :- Expect(", ", after);
        var (names, rest) :- ReadIdents(d, count - 1, next);
        Some(([name] + names, rest))
  }

  /** A whole INSERT into a table with columns of the given types. */
  function ReadInsert(d: Dialect, kinds: seq<Kind>, sql: string): Option<(string, seq<string>, seq<Row>)> {
    var s1 :- Expect("INSERT INTO ", sql);
    var (table, s2) :- ReadIdent(d, s1);
    var s3 :- Expect(" (", s2);
    var (columns, s4) :- ReadIdents(d, |kinds|, s3);
    var s5 :- Expect(" VALUES ", s4);
    var rows :- ReadRows(d, kinds, s5, |s5|);
    Some((table, columns, rows))
  }

  /** The table an INSERT names. */
  function InsertTarget(d: Dialect, sql: string): Option<string> {
    var s1 :- Expect("INSERT INTO ", sql);
    var (table, _) :- ReadIdent(d, s1);
    Some(table)
  }

  // ---- five replacements are one pass ---------------------------------

  function EscapeChar(c: char): string {
    match c
    case '\\' => "\\\\"
    case '\'' => "\\'"
    case '\0' => "\\0"
    case '\n' => "\\n"
    case '\r' => "\\r"
    case _ => [c]
  }

  function EscapeOnce(s: string): string {
    if s == "" then "" else EscapeChar(s[0]) + EscapeOnce(s[1..])
  }

  lemma {:induction false} ReplaceConcat(a: string, b: string, c: char, with: string)
    ensures Replace(a + b, c, with) == Replace(a, c, with) + Replace(b, c, with)
    decreases |a|
  {
    if a == "" {
      assert a + b == b;
    } else {
      assert (a + b)[1..] == a[1..] + b;
      ReplaceConcat(a[1..], b, c, with);
    }
  }

  lemma ReplaceChar(x: char, c: char, with: string)
    ensures Replace([x], c, with) == if x == c then with else [x]
  {
    assert [x][1..] == "";
    assert Replace("", c, with) == "";
  }

  lemma ReplacePair(x: char, y: char, c: char, with: string)
    requires x != c && y != c
    ensures Replace([x, y], c, with) == [x, y]
  {
    ReplaceChar(x, c, with);
    ReplaceChar(y, c, with);
    assert [x, y] == [x] + [y];
    ReplaceConcat([x], [y], c, with);
  }

  lemma EscapeCharFive(c: char)
    ensures MysqlEscape([c]) == EscapeChar(c)
  {
    hide Replace;
    ReplaceChar(c, '\\', "\\\\");
    ReplaceChar(c, '\'', "\\'");
    ReplaceChar(c, '\0', "\\0");
    ReplaceChar(c, '\n', "\\n");
    ReplaceChar(c, '\r', "\\r");
    if c == '\\' {
      ReplacePair('\\', '\\', '\'', "\\'");
      ReplacePair('\\', '\\', '\0', "\\0");
      ReplacePair('\\', '\\', '\n', "\\n");
      ReplacePair('\\', '\\', '\r', "\\r");
    } else if c == '\'' {
      ReplacePair('\\', '\'', '\0', "\\0");
      ReplacePair('\\', '\'', '\n', "\\n");
      ReplacePair('\\', '\'', '\r', "\\r");
    } else if c == '\0' {
      ReplacePair('\\', '0', '\n', "\\n");
      ReplacePair('\\', '0', '\r', "\\r");
    } else if c == '\n' {
      ReplacePair('\\', 'n', '\r', "\\r");
    }
  }

  lemma MysqlEscapeConcat(a: string, b: string)
    ensures MysqlEscape(a + b) == MysqlEscape(a) + MysqlEscape(b)
  {
    hide Replace;
    ReplaceConcat(a, b, '\\', "\\\\");
    var a1, b1 := Replace(a, '\\', "\\\\"), Replace(b, '\\', "\\\\");
    ReplaceConcat(a1, b1, '\'', "\\'");
    var a2, b2 := Replace(a1, '\'', "\\'"), Replace(b1, '\'', "\\'");
    ReplaceConcat(a2, b2, '\0', "\\0");
    var a3, b3 := Replace(a2, '\0', "\\0"), Replace(b2, '\0', "\\0");
    ReplaceConcat(a3, b3, '\n', "\\n");
    var a4, b4 := Replace(a3, '\n', "\\n"), Replace(b3, '\n', "\\n");
    ReplaceConcat(a4, b4, '\r', "\\r");
  }

  /** The five successive replacements escape each character once, in one pass. */
  lemma {:induction false} FiveReplacesAreOnePass(s: string)
    ensures MysqlEscape(s) == EscapeOnce(s)
  {
    if s == "" {
    } else {
      hide MysqlEscape;
      EscapeCharFive(s[0]);
      MysqlEscapeConcat([s[0]], s[1..]);
      FiveReplacesAreOnePass(s[1..]);
      assert [s[0]] + s[1..] == s;
    }
  }

  // ---- literals read back ---------------------------------------------

  /** What may follow a quoted text. */
  predicate NotQuote(q: char, tail: string) {
    tail != "" ==> tail[0] != q
  }

  lemma {:induction false} DoubledReads(q: char, s: string, out: string, tail: string)
    requires NotQuote(q, tail)
    ensures ReadQuoted(q, false, Replace(s, q, [q, q]) + [q] + tail, out) == Some((out + s, tail))
    decreases |s|
  {
    var text := Replace(s, q, [q, q]) + [q] + tail;
    if s == "" {
      assert text[1..] == tail && out + s == out;
    } else {
      var rest := Replace(s[1..], q, [q, q]) + [q] + tail;
      DoubledReads(q, s[1..], out + [s[0]], tail);
      assert out + [s[0]] + s[1..] == out + s;
      assert s[0] == q ==> text[2..] == rest;
      assert s[0] != q ==> text[1..] == rest;
    }
  }

  lemma {:induction false} EscapedReads(s: string, out: string, tail: string)
    requires NotQuote('\'', tail)
    ensures ReadQuoted('\'', true, EscapeOnce(s) + "'" + tail, out) == Some((out + s, tail))
    decreases |s|
  {
    var text := EscapeOnce(s) + "'" + tail;
    if s == "" {
      assert text[1..] == tail && out + s == out;
    } else {
      var e := EscapeChar(s[0]);
      var rest := EscapeOnce(s[1..]) + "'" + tail;
      EscapedReads(s[1..], out + [s[0]], tail);
      assert out + [s[0]] + s[1..] == out + s;
      assert text == e + rest;
      assert |e| == 2 ==> text[0] == '\\' && Unescape(text[1]) == [s[0]] && text[2..] == rest;
      assert |e| == 1 ==> text[0] == s[0] && text[1..] == rest;
    }
  }

  lemma TextReads(d: Dialect, s: string, tail: string)
    requires NotQuote('\'', tail)
    ensures ReadQuoted('\'', d.MySql?, EscapeText(d, s) + "'" + tail, "") == Some((s, tail))
  {
    assert "" + s == s;
    if d.Postgres? {
      DoubledReads('\'', s, "", tail);
    } else {
      FiveReplacesAreOnePass(s);
      EscapedReads(s, "", tail);
    }
  }

  predicate IsPlainChar(c: char) {
    c != '\'' && c != '\\' && c != '\0'
  }

  /** Quoted text without quotes and backslashes reads as it is, in either dialect. */
  lemma {:induction false} PlainReads(backslash: bool, s: string, out: string, tail: string)
    requires (forall k | 0 <= k < |s| :: IsPlainChar(s[k])) && NotQuote('\'', tail)
    ensures ReadQuoted('\'', backslash, s + "'" + tail, out) == Some((out + s, tail))
    decreases |s|
  {
    var text := s + "'" + tail;
    if s == "" {
      assert text[1..] == tail && out + s == out;
    } else {
      assert IsPlainChar(s[0]) && text[0] == s[0];
      PlainReads(backslash, s[1..], out + [s[0]], tail);
      assert text[1..] == s[1..] + "'" + tail;
      assert out + [s[0]] + s[1..] == out + s;
    }
  }

  lemma PairReads(b: byte, rest: string)
    ensures IsPlainChar(HexDigit(b / 16)) && IsPlainChar(HexDigit(b % 16))
    ensures ReadHex([HexDigit(b / 16), HexDigit(b % 16)] + rest)
      == match ReadHex(rest) case None => None case Some(bytes) => Some([b] + bytes)
  {
    var text := [HexDigit(b / 16), HexDigit(b % 16)] + rest;
    assert text[2..] == rest;
    assert HexValue(text[0]) == Some(b / 16) && HexValue(text[1]) == Some(b % 16);
  }

  lemma {:induction false} HexReads(bytes: seq<byte>)
    ensures ReadHex(HexEncode(bytes)) == Some(bytes)
    ensures forall k | 0 <= k < |HexEncode(bytes)| :: IsPlainChar(HexEncode(bytes)[k])
    decreases |bytes|
  {
    if bytes == [] {
    } else {
      var pair, rest := [HexDigit(bytes[0] / 16), HexDigit(bytes[0] % 16)], HexEncode(bytes[1..]);
      HexReads(bytes[1..]);
      assert HexEncode(bytes) == pair + rest;
      hide HexEncode, ReadHex, HexDigit;
      PairReads(bytes[0], rest);
      assert forall k | 2 <= k < |pair + rest| :: (pair + rest)[k] == rest[k - 2];
      assert [bytes[0]] + bytes[1..] == bytes;
    }
  }

  /** What follows a literal inside a row. */
  predicate Delimited(tail: string) {
    tail != "" && (tail[0] == ',' || tail[0] == ')')
  }

  lemma {:induction false} NumberPrefixIs(digits: string, tail: string)
    requires (forall k | 0 <= k < |digits| :: IsDigit(digits[k]) || digits[k] == '-') && Delimited(tail)
    ensures NumberPrefix(digits + tail) == |digits|
    decreases |digits|
  {
    if digits == "" {
      assert digits + tail == tail;
    } else {
      assert (digits + tail)[1..] == digits[1..] + tail;
      NumberPrefixIs(digits[1..], tail);
    }
  }

  lemma NumberReads(d: Dialect, n: int, tail: string)
    requires Delimited(tail)
    ensures ReadToken(d, IntText(n) + tail) == Some((NumberToken(n), tail))
  {
    IntTextReads(n);
    IntTextShape(n);
    hide IntText, ReadInt, ReadToken, NumberPrefix;
    var text := IntText(n);
    NumberPrefixIs(text, tail);
    var s := text + tail;
    assert s[0] == text[0] && s[..|text|] == text && s[|text|..] == tail;
    NumberIsRead(d, s);
  }

  lemma IntTextShape(n: int)
    ensures forall k | 0 <= k < |IntText(n)| :: IsDigit(IntText(n)[k]) || IntText(n)[k] == '-'
  {
  }

  lemma NumberIsRead(d: Dialect, s: string)
    requires s != "" && (IsDigit(s[0]) || s[0] == '-')
    ensures ReadToken(d, s)
      == match ReadInt(s[..NumberPrefix(s)])
         case None => None
         case Some(number) => Some((NumberToken(number), s[NumberPrefix(s)..]))
  {
    hide ReadQuoted, ReadInt, NumberPrefix, ReadWord, ReadHex;
  }

  lemma WordReads(d: Dialect, word: string, token: Token, tail: string)
    requires (word, token) in {("NULL", NullToken), ("TRUE", BoolToken(true)), ("FALSE", BoolToken(false))}
    ensures ReadToken(d, word + tail) == Some((token, tail))
  {
    hide NumberPrefix, ReadInt, ReadQuoted;
    assert (word + tail)[0] == word[0] && (word + tail)[|word|..] == tail;
  }

  lemma TextCellReads(d: Dialect, text: string, tail: string)
    requires Delimited(tail)
    ensures ReadToken(d, Literal(d, TextCell(text)) + tail)
      == if IsRefused(d, TextCell(text)) then None else Some((StringToken(text), tail))
  {
    hide EscapeText, ReadQuoted, ReadToken;
    TextReads(d, text, tail);
    StringReads(d, EscapeText(d, text) + "'" + tail);
    assert Literal(d, TextCell(text)) + tail == "'" + (EscapeText(d, text) + "'" + tail);
  }

  /** A literal reads back to its cell in a column of its type, unless the target refuses it. */
  lemma LiteralReads(d: Dialect, kind: Kind, cell: Cell, tail: string)
    requires Fits(kind, cell) && Delimited(tail)
    ensures var r := ReadToken(d, Literal(d, cell) + tail);
      if IsRefused(d, cell) then r.None?
      else r.Some? && r.value.1 == tail && Store(d, kind, r.value.0) == Some(cell)
  {
    hide ReadToken;
    match cell
    case NullCell =>
      WordReads(d, "NULL", NullToken, tail);
    case BoolCell(b) =>
      if d.Postgres? {
        WordReads(d, if b then "TRUE" else "FALSE", BoolToken(b), tail);
      } else {
        NumberReads(d, if b then 1 else 0, tail);
        assert IntText(1) == "1" && IntText(0) == "0";
      }
    case IntCell(n) =>
      NumberReads(d, n, tail);
    case TextCell(text) =>
      TextCellReads(d, text, tail);
    case BytesCell(bytes) =>
      BytesRead(d, bytes, tail);
  }

  lemma BytesRead(d: Dialect, bytes: seq<byte>, tail: string)
    requires Delimited(tail)
    ensures var r := ReadToken(d, Literal(d, BytesCell(bytes)) + tail);
      r.Some? && r.value.1 == tail && Store(d, BytesKind, r.value.0) == Some(BytesCell(bytes))
  {
    hide HexEncode, ReadHex, ReadToken;
    var hex := HexEncode(bytes);
    HexReads(bytes);
    if d.Postgres? {
      PostgresHexReads(hex, tail);
      assert Literal(d, BytesCell(bytes)) + tail == "'\\x" + hex + "'" + tail;
      assert ("\\x" + hex)[2..] == hex;
    } else {
      MySqlHexReads(hex, bytes, tail);
      assert Literal(d, BytesCell(bytes)) + tail == "X'" + hex + "'" + tail;
    }
  }

  lemma PostgresHexReads(hex: string, tail: string)
    requires (forall k | 0 <= k < |hex| :: IsPlainChar(hex[k])) && Delimited(tail)
    ensures ReadToken(Postgres, "'\\x" + hex + "'" + tail) == Some((StringToken("\\x" + hex), tail))
  {
    hide ReadQuoted, ReadToken;
    BackslashHexReads(hex, tail);
    StringReads(Postgres, "\\x" + hex + "'" + tail);
    assert '\0' !in "\\x" + hex;
    assert "'" + ("\\x" + hex + "'" + tail) == "'\\x" + hex + "'" + tail;
  }

  lemma MySqlHexReads(hex: string, bytes: seq<byte>, tail: string)
    requires (forall k | 0 <= k < |hex| :: IsPlainChar(hex[k])) && Delimited(tail) && ReadHex(hex) == Some(bytes)
    ensures ReadToken(MySql, "X'" + hex + "'" + tail) == Some((HexToken(bytes), tail))
  {
    hide ReadQuoted, ReadToken, ReadHex;
    PlainReads(true, hex, "", tail);
    assert "" + hex == hex;
    HexStringReads(hex + "'" + tail);
    assert "X'" + (hex + "'" + tail) == "X'" + hex + "'" + tail;
  }

  lemma StringReads(d: Dialect, body: string)
    ensures ReadToken(d, "'" + body)
      == match ReadQuoted('\'', d.MySql?, body, "")
         case None => None
         case Some((text, rest)) =>
           if d.Postgres? && '\0' in text then None else Some((StringToken(text), rest))
  {
    hide ReadQuoted, NumberPrefix, ReadInt, ReadWord;
    assert ("'" + body)[1..] == body;
  }

  lemma HexStringReads(body: string)
    requires ReadQuoted('\'', true, body, "").Some?
    ensures var (digits, rest) := ReadQuoted('\'', true, body, "").value;
      ReadHex(digits).Some? ==> ReadToken(MySql, "X'" + body) == Some((HexToken(ReadHex(digits).value), rest))
  {
    hide ReadQuoted, ReadHex, NumberPrefix, ReadInt, ReadWord;
    assert ("X'" + body)[2..] == body;
  }

  /** Without escapes the backslash of `\x` is a character like any other. */
  lemma BackslashHexReads(hex: string, tail: string)
    requires (forall k | 0 <= k < |hex| :: IsPlainChar(hex[k])) && NotQuote('\'', tail)
    ensures ReadQuoted('\'', false, "\\x" + hex + "'" + tail, "") == Some(("\\x" + hex, tail))
  {
    hide ReadQuoted;
    var rest := hex + "'" + tail;
    PlainStep('\\', "x" + rest, "");
    PlainStep('x', rest, "\\");
    PlainReads(false, hex, "\\x", tail);
    assert "\\x" + hex + "'" + tail == "\\" + ("x" + rest);
    assert "" + "\\" == "\\" && "\\" + "x" == "\\x";
  }

  lemma PlainStep(c: char, rest: string, out: string)
    requires c != '\''
    ensures ReadQuoted('\'', false, [c] + rest, out) == ReadQuoted('\'', false, rest, out + [c])
  {
    assert ([c] + rest)[1..] == rest;
  }

  // ---- statements read back -------------------------------------------

  /** `parts` joined and followed by `end`, seen from the front. */
  lemma JoinSplits(parts: seq<string>, end: string)
    requires parts != []
    ensures Join(parts, ", ") + end
      == parts[0] + if |parts| == 1 then end else ", " + (Join(parts[1..], ", ") + end)
  {
    if |parts| > 1 {
      JoinFirst(parts);
      hide *;
      Regroup(parts[0], ", ", Join(parts[1..], ", "), end);
    }
  }

  lemma JoinFirst(parts: seq<string>)
    requires |parts| > 1
    ensures Join(parts, ", ") == parts[0] + ", " + Join(parts[1..], ", ")
  {
  }

  lemma Regroup(a: string, b: string, c: string, d: string)
    ensures a + b + c + d == a + (b + (c + d))
  {
  }

  lemma JoinEmpty(end: string)
    ensures Join([], ", ") + end == end
  {
  }

  lemma ExpectReads(prefix: string, rest: string)
    ensures Expect(prefix, prefix + rest) == Some(rest)
  {
    assert (prefix + rest)[|prefix|..] == rest;
  }

  lemma AcceptsStep(d: Dialect, row: Row)
    requires row != []
    ensures Accepts(d, row) <==> !IsRefused(d, row[0]) && Accepts(d, row[1..])
  {
    assert row == [row[0]] + row[1..];
    assert forall i | 1 <= i < |row| :: row[1..][i - 1] == row[i];
  }

  lemma AcceptsAllStep(d: Dialect, batch: seq<Row>)
    requires batch != []
    ensures AcceptsAll(d, batch) <==> Accepts(d, batch[0]) && AcceptsAll(d, batch[1..])
  {
    hide Accepts;
    assert batch == [batch[0]] + batch[1..];
    assert forall i | 1 <= i < |batch| :: batch[1..][i - 1] == batch[i];
  }

  lemma {:induction false} CellsRead(d: Dialect, kinds: seq<Kind>, row: Row, tail: string)
    requires RowFits(kinds, row)
    ensures ReadCells(d, kinds, Join(Literals(d, row), ", ") + (")" + tail))
      == if Accepts(d, row) then Some((row, tail)) else None
    decreases |row|
  {
    hide ReadToken, Store, Literal, Expect, Join;
    ExpectReads(")", tail);
    if row == [] {
      JoinEmpty(")" + tail);
    } else {
      var lits := Literals(d, row);
      assert lits[1..] == Literals(d, row[1..]);
      JoinSplits(lits, ")" + tail);
      if |row| == 1 {
        LiteralReads(d, kinds[0], row[0], ")" + tail);
        assert row == [row[0]];
      } else {
        var rest := Join(lits[1..], ", ") + (")" + tail);
        LiteralReads(d, kinds[0], row[0], ", " + rest);
        ExpectReads(", ", rest);
        CellsRead(d, kinds[1..], row[1..], tail);
        AcceptsStep(d, row);
        assert row == [row[0]] + row[1..];
      }
    }
  }

  /** The VALUES text of any batch reads back to exactly its cells, unless the target refuses one of them. */
  lemma {:induction false} ValuesRead(d: Dialect, kinds: seq<Kind>, batch: seq<Row>, fuel: nat)
    requires batch != [] && fuel >= |batch|
    requires forall i | 0 <= i < |batch| :: RowFits(kinds, batch[i])
    ensures ReadRows(d, kinds, ValuesText(d, batch), fuel) == if AcceptsAll(d, batch) then Some(batch) else None
    decreases |batch|
  {
    hide ReadCells, Literals, Expect;
    var texts := RowTexts(d, batch);
    var cells := Join(Literals(d, batch[0]), ", ");
    JoinSplits(texts, "");
    assert texts[1..] == RowTexts(d, batch[1..]);
    assert ValuesText(d, batch) + "" == ValuesText(d, batch);
    var tail := if |batch| == 1 then "" else ", " + ValuesText(d, batch[1..]);
    assert ValuesText(d, batch[1..]) + "" == ValuesText(d, batch[1..]);
    assert ValuesText(d, batch) == "(" + (cells + (")" + tail));
    ExpectReads("(", cells + (")" + tail));
    CellsRead(d, kinds, batch[0], tail);
    AcceptsAllStep(d, batch);
    hide Accepts;
    if |batch| == 1 {
      assert batch == [batch[0]];
    } else {
      ExpectReads(", ", ValuesText(d, batch[1..]));
      ValuesRead(d, kinds, batch[1..], fuel - 1);
      assert batch == [batch[0]] + batch[1..];
    }
  }

  lemma IdentReads(d: Dialect, name: string, tail: string)
    requires NotQuote(QuoteChar(d), tail)
    ensures ReadIdent(d, Ident(d, name) + tail) == Some((name, tail))
  {
    var q := QuoteChar(d);
    var body := Replace(name, q, [q, q]) + [q] + tail;
    assert Ident(d, name) + tail == [q] + body;
    ExpectReads([q], body);
    DoubledReads(q, name, "", tail);
    assert "" + name == name;
  }

  lemma {:induction false} IdentsRead(d: Dialect, names: seq<string>, tail: string)
    ensures ReadIdents(d, |names|, Join(Idents(d, names), ", ") + (")" + tail)) == Some((names, tail))
    decreases |names|
  {
    hide ReadIdent, Ident, Expect, Join;
    ExpectReads(")", tail);
    if names == [] {
      JoinEmpty(")" + tail);
    } else {
      var idents := Idents(d, names);
      assert idents[1..] == Idents(d, names[1..]);
      JoinSplits(idents, ")" + tail);
      if |names| == 1 {
        IdentReads(d, names[0], ")" + tail);
        assert names == [names[0]];
      } else {
        var rest := Join(idents[1..], ", ") + (")" + tail);
        IdentReads(d, names[0], ", " + rest);
        ExpectReads(", ", rest);
        IdentsRead(d, names[1..], tail);
        assert names == [names[0]] + names[1..];
      }
    }
  }

  lemma {:induction false} ValuesLong(d: Dialect, batch: seq<Row>)
    ensures |ValuesText(d, batch)| >= |batch|
    decreases |batch|
  {
    if batch == [] {
    } else {
      ValuesLong(d, batch[1..]);
      assert RowTexts(d, batch)[1..] == RowTexts(d, batch[1..]);
    }
  }

  /** The whole statement names the table and the columns and carries exactly the batch, or is refused. */
  lemma InsertReads(d: Dialect, table: string, columns: seq<string>, kinds: seq<Kind>, batch: seq<Row>)
    requires batch != [] && |columns| == |kinds|
    requires forall i | 0 <= i < |batch| :: RowFits(kinds, batch[i])
    ensures InsertTarget(d, InsertText(d, table, columns, batch)) == Some(table)
    ensures ReadInsert(d, kinds, InsertText(d, table, columns, batch))
      == if AcceptsAll(d, batch) then Some((table, columns, batch)) else None
  {
    hide Expect, ReadIdent, ReadIdents, ReadRows, Ident, Idents, ValuesText;
    var values := ValuesText(d, batch);
    var s5 := " VALUES " + values;
    var s4 := Join(Idents(d, columns), ", ") + (")" + s5);
    var s3 := " (" + s4;
    var s2 := Ident(d, table) + s3;
    assert InsertText(d, table, columns, batch) == "INSERT INTO " + s2 by {
      assert ") VALUES " == ")" + " VALUES ";
    }
    ExpectReads("INSERT INTO ", s2);
    IdentReads(d, table, s3);
    ExpectReads(" (", s4);
    IdentsRead(d, columns, s5);
    ExpectReads(" VALUES ", values);
    ValuesLong(d, batch);
    ValuesRead(d, kinds, batch, |values|);
  }

  /** A text with a NUL character, which MySQL can hold, has no literal in PostgreSQL. */
  lemma NulIsRefused(tail: string)
    requires Delimited(tail)
    ensures ReadToken(Postgres, Literal(Postgres, TextCell("\0")) + tail) == None
    ensures ReadToken(MySql, Literal(MySql, TextCell("\0")) + tail) == Some((StringToken("\0"), tail))
  {
    hide ReadToken, Literal;
    TextCellReads(Postgres, "\0", tail);
    TextCellReads(MySql, "\0", tail);
    assert '\0' in "\0";
  }

  // ---- statements as they are sent ------------------------------------

  lemma {:induction false} NothingReplaced(s: string, c: char, with: string)
    requires c !in s
    ensures Replace(s, c, with) == s
  {
    if s == "" {
    } else {
      assert s[0] in s && forall x | x in s[1..] :: x in s;
      NothingReplaced(s[1..], c, with);
    }
  }

  /** PostgreSQL quotes names with quotation marks, MySQL with backticks. */
  lemma {:induction false} IdentIs(name: string)
    ensures '"' !in name ==> Ident(Postgres, name) == "\"" + name + "\""
    ensures '`' !in name ==> Ident(MySql, name) == "`" + name + "`"
  {
    if '"' !in name {
      NothingReplaced(name, '"', "\"\"");
    }
    if '`' !in name {
      NothingReplaced(name, '`', "``");
    }
  }

  /** The literals of each dialect. */
  lemma {:induction false} LiteralIs(s: string)
    requires forall c | c in s :: c !in {'\'', '\\', '\0', '\n', '\r'}
    ensures forall d :: Literal(d, NullCell) == "NULL" && Literal(d, TextCell(s)) == "'" + s + "'"
    ensures Literal(Postgres, BoolCell(true)) == "TRUE" && Literal(Postgres, BoolCell(false)) == "FALSE"
    ensures Literal(MySql, BoolCell(true)) == "1" && Literal(MySql, BoolCell(false)) == "0"
    ensures Literal(Postgres, BytesCell([0x1F, 0xA0])) == "'\\x1fa0'"
    ensures Literal(MySql, BytesCell([0x1F, 0xA0])) == "X'1fa0'"
  {
    assert '\'' !in s && '\\' !in s && '\0' !in s && '\n' !in s && '\r' !in s;
    NothingReplaced(s, '\'', "''");
    NothingReplaced(s, '\\', "\\\\");
    NothingReplaced(s, '\'', "\\'");
    NothingReplaced(s, '\0', "\\0");
    NothingReplaced(s, '\n', "\\n");
    NothingReplaced(s, '\r', "\\r");
    HexIs();
    hide Replace, HexEncode;
  }

  lemma {:induction false} HexIs()
    ensures HexEncode([0x1F, 0xA0]) == "1fa0"
  {
    assert [0x1F, 0xA0][1..] == [0xA0] && [0xA0][1..] == [];
    assert HexEncode([0xA0]) == "a0" + "";
  }

  lemma {:induction false} OneRowTexts(d: Dialect, cell: Cell, column: string)
    ensures ValuesText(d, [[cell]]) == "(" + Literal(d, cell) + ")"
    ensures Join(Idents(d, [column]), ", ") == Ident(d, column)
  {
    hide Literal, Ident;
    assert [cell][1..] == [] && Literals(d, []) == [] && Literals(d, [cell]) == [Literal(d, cell)];
    assert [[cell]][1..] == [] && RowTexts(d, []) == [];
    assert [column][1..] == [] && Idents(d, []) == [];
  }

  lemma {:induction false} PostgresInsertIs()
    ensures InsertText(Postgres, "t", ["a"], [[TextCell("x")]]) == "INSERT INTO \"t\" (\"a\") VALUES ('x')"
  {
    hide *;
    IdentIs("t");
    IdentIs("a");
    LiteralIs("x");
    OneRowTexts(Postgres, TextCell("x"), "a");
    InsertParts(Postgres, TextCell("x"));
    assert "(" + "'x'" + ")" == "('x')";
    assert "INSERT INTO " + "\"t\"" == "INSERT INTO \"t\"";
    assert "INSERT INTO \"t\"" + " (" + "\"a\"" == "INSERT INTO \"t\" (\"a\"";
    assert "INSERT INTO \"t\" (\"a\"" + ") VALUES " == "INSERT INTO \"t\" (\"a\") VALUES ";
  }

  lemma {:induction false} InsertParts(d: Dialect, cell: Cell)
    ensures InsertText(d, "t", ["a"], [[cell]])
      == "INSERT INTO " + Ident(d, "t") + " (" + Join(Idents(d, ["a"]), ", ") + ") VALUES " + ValuesText(d, [[cell]])
  {
  }

  lemma {:induction false} MySqlInsertIs()
    ensures InsertText(MySql, "t", ["a"], [[TextCell("x")]]) == "INSERT INTO `t` (`a`) VALUES ('x')"
  {
    hide *;
    IdentIs("t");
    IdentIs("a");
    LiteralIs("x");
    OneRowTexts(MySql, TextCell("x"), "a");
    InsertParts(MySql, TextCell("x"));
    assert "(" + "'x'" + ")" == "('x')";
    assert "INSERT INTO " + "`t`" == "INSERT INTO `t`";
    assert "INSERT INTO `t`" + " (" + "`a`" == "INSERT INTO `t` (`a`";
    assert "INSERT INTO `t` (`a`" + ") VALUES " == "INSERT INTO `t` (`a`) VALUES ";
  }
}
