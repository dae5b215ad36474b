/** The keyboard-map parsers of src/lib/libMap.ts: `parseTextKeyboardMap`,
    which turns the text layout of the GMMK into a grid of LED indices, and
    `matrixifyQMK`, which groups the keys of a QMK layout into rows. */
module LibMap {
  import opened Utils

  // ---------------------------------------------------------------------
  // Splitting text

  /** A character the regular-expression class `\s` matches (white space
      and line terminators), which is also what `parseInt` trims. */
  predicate IsSpace(c: char)
  {
    c == ' ' || c == '\t' || c == '\n' || c == '\r' || c == '\U{000B}' || c == '\U{000C}'
    || c == '\U{00A0}' || c == '\U{1680}' || '\U{2000}' <= c <= '\U{200A}'
    || c == '\U{2028}' || c == '\U{2029}' || c == '\U{202F}' || c == '\U{205F}'
    || c == '\U{3000}' || c == '\U{FEFF}'
  }

  predicate IsNewline(c: char)
  {
    c == '\n'
  }

  /** `s.split(sep)` for a one-character separator: the pieces between
      consecutive separators, empty pieces included. */
  function Split(s: string, isSep: char -> bool): (fields: seq<string>)
    ensures |fields| >= 1
    ensures forall k, j | 0 <= k < |fields| && 0 <= j < |fields[k]| :: !isSep(fields[k][j])
  {
    if s == [] then [[]]
    else
      var rest := Split(s[1..], isSep);
      if isSep(s[0]) then [[]] + rest
      else [[s[0]] + rest[0]] + rest[1..]
  }

  /** `fields.join(sep)`. */
  function Join(fields: seq<string>, sep: char): string
    requires |fields| >= 1
  {
    if |fields| == 1 then fields[0] else fields[0] + [sep] + Join(fields[1..], sep)
  }

  /** Splitting at a separator and joining with it again gives back the text. */
  lemma {:induction false} JoinSplit(s: string, isSep: char -> bool, sep: char)
    requires isSep(sep)
    requires forall k | 0 <= k < |s| :: isSep(s[k]) ==> s[k] == sep
    ensures Join(Split(s, isSep), sep) == s
  {
    if s != [] {
      var rest := Split(s[1..], isSep);
      JoinSplit(s[1..], isSep, sep);
      if !isSep(s[0]) && |rest| > 1 {
        assert Join(rest, sep) == rest[0] + [sep] + Join(rest[1..], sep);
      }
    }
  }

  /** A text without separators is a single piece. */
  lemma {:induction false} SplitNoSeparator(s: string, isSep: char -> bool)
    requires forall k | 0 <= k < |s| :: !isSep(s[k])
    ensures Split(s, isSep) == [s]
  {
    if s != [] {
      SplitNoSeparator(s[1..], isSep);
      assert [s[0]] + s[1..] == s;
    }
  }

  /** A separator ends one piece and starts the next. */
  lemma {:induction false} SplitConcat(x: string, sep: char, y: string, isSep: char -> bool)
    requires isSep(sep)
    ensures Split(x + [sep] + y, isSep) == Split(x, isSep) + Split(y, isSep)
  {
    if x == [] {
      assert x + [sep] + y == [sep] + y;
      assert ([sep] + y)[1..] == y;
    } else {
      assert (x + [sep] + y)[1..] == x[1..] + [sep] + y;
      SplitConcat(x[1..], sep, y, isSep);
    }
  }

  /** Keeps the non-empty sequences, in order: `filter(element => !!element)`
      on strings and `filter(e => !!e.length)` on arrays. */
  function NonEmpty<T>(xs: seq<seq<T>>): (r: seq<seq<T>>)
    ensures |r| <= |xs|
    ensures forall k | 0 <= k < |r| :: r[k] != [] && r[k] in xs
  {
    if xs == [] then []
    else (if |xs[0]| == 0 then [] else [xs[0]]) + NonEmpty(xs[1..])
  }

  /** The filter drops only empty sequences. */
  lemma {:induction false} NonEmptyComplete<T>(xs: seq<seq<T>>)
    ensures forall k | 0 <= k < |xs| && xs[k] != [] :: xs[k] in NonEmpty(xs)
  {
    if xs != [] {
      NonEmptyComplete(xs[1..]);
      assert forall k | 1 <= k < |xs| :: xs[k] == xs[1..][k - 1];
    }
  }

  /** `row.split(/\s+/).filter(element => !!element)`: the maximal runs of
      non-space characters. Splitting at every single space character and
      dropping the empty pieces yields the same runs as splitting at runs of
      spaces and dropping the empty pieces. */
  function Tokens(line: string): (tokens: seq<string>)
    ensures forall k | 0 <= k < |tokens| :: tokens[k] != []
    ensures forall k, j | 0 <= k < |tokens| && 0 <= j < |tokens[k]| :: !IsSpace(tokens[k][j])
  {
    var fields := Split(line, IsSpace);
    NonEmpty(fields)
  }

  predicate AllEmpty(fields: seq<string>)
  {
    forall k | 0 <= k < |fields| :: fields[k] == []
  }

  predicate AllSeparators(s: string, isSep: char -> bool)
  {
    forall j | 0 <= j < |s| :: isSep(s[j])
  }

  lemma {:induction false} SplitAllEmpty(s: string, isSep: char -> bool)
    ensures AllEmpty(Split(s, isSep)) <==> AllSeparators(s, isSep)
  {
    if s != [] {
      SplitAllEmpty(s[1..], isSep);
      var rest := Split(s[1..], isSep);
      var fields := Split(s, isSep);
      if isSep(s[0]) {
        assert fields == [[]] + rest;
        if AllEmpty(rest) {
          forall k | 0 <= k < |fields|
            ensures fields[k] == []
          {
            if k > 0 {
              assert fields[k] == rest[k - 1];
            }
          }
          forall j | 0 <= j < |s|
            ensures isSep(s[j])
          {
            if j > 0 {
              assert s[j] == s[1..][j - 1];
            }
          }
        } else {
          var k :| 0 <= k < |rest| && rest[k] != [];
          assert fields[k + 1] != [];
          var j :| 0 <= j < |s[1..]| && !isSep(s[1..][j]);
          assert !isSep(s[j + 1]);
        }
      } else {
        assert fields[0] == [s[0]] + rest[0];
      }
    }
  }

  /** A line yields no tokens exactly when it is empty or all white space. */
  lemma TokensEmptyIff(line: string)
    ensures Tokens(line) == [] <==> forall j | 0 <= j < |line| :: IsSpace(line[j])
  {
    var fields := Split(line, IsSpace);
    SplitAllEmpty(line, IsSpace);
    if Tokens(line) != [] {
      assert Tokens(line)[0] in NonEmpty(fields);
    } else {
      NonEmptyComplete(fields);
    }
  }

  /** The filter keeps the non-empty elements of each part, in order. */
  lemma {:induction false} NonEmptyConcat<T>(a: seq<seq<T>>, b: seq<seq<T>>)
    ensures NonEmpty(a + b) == NonEmpty(a) + NonEmpty(b)
  {
    if a == [] {
      assert a + b == b;
    } else {
      assert (a + b)[0] == a[0];
      assert (a + b)[1..] == a[1..] + b;
      NonEmptyConcat(a[1..], b);
    }
  }

  /** A single element is kept exactly when it is not empty. */
  lemma NonEmptySingle<T>(f: seq<T>)
    ensures NonEmpty([f]) == if f == [] then [] else [f]
  {
    assert [f][1..] == [];
  }

  /** A white-space character separates the tokens before it from the
      tokens after it. */
  lemma TokensAtSpace(a: string, c: char, b: string)
    requires IsSpace(c)
    ensures Tokens(a + [c] + b) == Tokens(a) + Tokens(b)
  {
    SplitConcat(a, c, b, IsSpace);
    NonEmptyConcat(Split(a, IsSpace), Split(b, IsSpace));
  }

  /** A word without white space is one token. */
  lemma TokensOfWord(w: string)
    requires w != [] && forall k | 0 <= k < |w| :: !IsSpace(w[k])
    ensures Tokens(w) == [w]
  {
    SplitNoSeparator(w, IsSpace);
    NonEmptySingle(w);
  }

  // ---------------------------------------------------------------------
  // parseInt

  /** A JavaScript number that `parseInt` can return: an integer or NaN. */
  datatype ParsedInt = Int(value: int) | NaN

  /** The value of a hexadecimal digit of either case; 16 for any other
      character. */
  function DigitValue(c: char): (d: nat)
    ensures d <= 16
  {
    if '0' <= c <= '9' then c as int - '0' as int
    else if 'a' <= c <= 'f' then c as int - 'a' as int + 10
    else if 'A' <= c <= 'F' then c as int - 'A' as int + 10
    else 16
  }

  predicate IsDigit(c: char, radix: nat)
  {
    DigitValue(c) < radix
  }

  /** The longest prefix of `s` made of digits of the radix. */
  function DigitPrefix(s: string, radix: nat): (z: string)
    ensures |z| <= |s| && z == s[..|z|]
    ensures forall k | 0 <= k < |z| :: IsDigit(z[k], radix)
    ensures |z| < |s| ==> !IsDigit(s[|z|], radix)
  {
    if s != [] && IsDigit(s[0], radix) then [s[0]] + DigitPrefix(s[1..], radix) else []
  }

  /** The number a string of digits denotes, most significant digit first. */
  function DigitsValue(z: string, radix: nat): nat
  {
    if z == [] then 0
    else DigitsValue(z[..|z| - 1], radix) * radix + DigitValue(z[|z| - 1])
  }

  /** Drops leading white space. */
  function TrimStart(s: string): (t: string)
    ensures |t| <= |s| && t == s[|s| - |t|..]
    ensures t != [] ==> !IsSpace(t[0])
  {
    if s != [] && IsSpace(s[0]) then
      assert forall j | 0 <= j < |s| - 1 :: s[1..][j] == s[j + 1];
      TrimStart(s[1..])
    else s
  }

  /** The part of `parseInt` after the sign: a `0x` or `0X` prefix selects
      base 16 and anything else base 10; the longest run of digits that
      follows is the value, and with no digit there the result is NaN. */
  function ParseDigits(u: string): (r: ParsedInt)
    ensures r.Int? ==> r.value >= 0
    ensures u == [] ==> r == NaN
  {
    var hex := |u| >= 2 && u[0] == '0' && (u[1] == 'x' || u[1] == 'X');
    var radix := if hex then 16 else 10;
    var z := DigitPrefix(if hex then u[2..] else u, radix);
    if z == [] then NaN else Int(DigitsValue(z, radix))
  }

  function Negate(r: ParsedInt): ParsedInt
  {
    if r.Int? then Int(-r.value) else NaN
  }

  /** `parseInt(s)` with no radix: leading white space is skipped, then an
      optional sign, then the digits; trailing characters are ignored. */
  function ParseInt(s: string): ParsedInt
  {
    var t := TrimStart(s);
    if t != [] && t[0] == '-' then Negate(ParseDigits(t[1..]))
    else if t != [] && t[0] == '+' then ParseDigits(t[1..])
    else ParseDigits(t)
  }

  lemma {:induction false} TrimStartBlank(s: string)
    requires forall j | 0 <= j < |s| :: IsSpace(s[j])
    ensures TrimStart(s) == []
  {
    if s != [] {
      assert forall j | 0 <= j < |s| - 1 :: s[1..][j] == s[j + 1];
      TrimStartBlank(s[1..]);
    }
  }

  /** Empty or all-white-space text is not a number. */
  lemma ParseIntBlank(s: string)
    requires forall j | 0 <= j < |s| :: IsSpace(s[j])
    ensures ParseInt(s) == NaN
  {
    TrimStartBlank(s);
  }

  /** The decimal numeral of a natural number, without leading zeros. */
  function Decimal(n: nat): (s: string)
    ensures s != [] && forall k | 0 <= k < |s| :: IsDigit(s[k], 10)
  {
    if n < 10 then [('0' as int + n) as char]
    else Decimal(n / 10) + [('0' as int + n % 10) as char]
  }

  lemma {:induction false} DecimalValue(n: nat)
    ensures DigitsValue(Decimal(n), 10) == n
  {
    if n >= 10 {
      var s := Decimal(n);
      assert s[..|s| - 1] == Decimal(n / 10);
      DecimalValue(n / 10);
    }
  }

  lemma {:induction false} DigitPrefixOfDigits(a: string, t: string, radix: nat)
    requires forall k | 0 <= k < |a| :: IsDigit(a[k], radix)
    requires t == [] || !IsDigit(t[0], radix)
    ensures DigitPrefix(a + t, radix) == a
  {
    if a != [] {
      assert (a + t)[1..] == a[1..] + t;
      DigitPrefixOfDigits(a[1..], t, radix);
    }
  }

  /** A decimal digit is neither white space nor a sign. */
  lemma DigitIsPlain(c: char)
    requires IsDigit(c, 10)
    ensures !IsSpace(c) && c != '-' && c != '+'
  {
  }

  /** Text that starts with a digit is read without skipping anything. */
  lemma ParseUnsigned(u: string)
    requires u != [] && IsDigit(u[0], 10)
    ensures ParseInt(u) == ParseDigits(u)
  {
    DigitIsPlain(u[0]);
    assert TrimStart(u) == u;
  }

  /** A minus sign in front of such text negates its value. */
  lemma ParseMinus(u: string)
    requires u != [] && IsDigit(u[0], 10)
    ensures ParseInt("-" + u) == Negate(ParseDigits(u))
  {
    var s := "-" + u;
    assert s[0] == '-' && !IsSpace('-');
    assert TrimStart(s) == s;
    assert s[1..] == u;
  }

  lemma DecimalDigits(n: nat, t: string)
    requires t == [] || !IsDigit(t[0], 10)
    requires n == 0 ==> t == [] || (t[0] != 'x' && t[0] != 'X')
    ensures ParseDigits(Decimal(n) + t) == Int(n)
    ensures IsDigit((Decimal(n) + t)[0], 10)
  {
    var d := Decimal(n);
    var u := d + t;
    DecimalValue(n);
    DigitPrefixOfDigits(d, t, 10);
    NoHexPrefix(n, t);
    assert u[0] == d[0];
  }

  /** A numeral followed by such text does not read as `0x`. */
  lemma NoHexPrefix(n: nat, t: string)
    requires n == 0 ==> t == [] || (t[0] != 'x' && t[0] != 'X')
    ensures var u := Decimal(n) + t; !(|u| >= 2 && u[0] == '0' && (u[1] == 'x' || u[1] == 'X'))
  {
    var d := Decimal(n);
    var u := d + t;
    if |u| >= 2 && u[0] == '0' {
      if n >= 10 {
        assert u[1] == d[1];
      } else {
        assert n == 0 && d == "0";
        assert u[1..] == t;
      }
    }
  }

  /** A numeral's value, read with or without a minus sign. */
  lemma SignedValue(u: string, n: nat)
    requires u != [] && IsDigit(u[0], 10) && ParseDigits(u) == Int(n)
    ensures ParseInt(u) == Int(n)
    ensures ParseInt("-" + u) == Int(-(n as int))
  {
    ParseUnsigned(u);
    ParseMinus(u);
    assert Negate(Int(n)) == Int(-(n as int));
  }

  /** `parseInt` reads a decimal numeral back to its value and stops at the
      first character that is not a decimal digit; the one exception is a
      numeral `0` followed by `x` or `X`, which starts a hexadecimal number. */
  lemma ParseDecimal(n: nat, t: string)
    requires t == [] || !IsDigit(t[0], 10)
    requires n == 0 ==> t == [] || (t[0] != 'x' && t[0] != 'X')
    ensures ParseInt(Decimal(n) + t) == Int(n)
  {
    DecimalDigits(n, t);
    SignedValue(Decimal(n) + t, n);
  }

  /** The same for a numeral with a minus sign. */
  lemma ParseNegativeDecimal(n: nat, t: string)
    requires t == [] || !IsDigit(t[0], 10)
    requires n == 0 ==> t == [] || (t[0] != 'x' && t[0] != 'X')
    ensures ParseInt("-" + Decimal(n) + t) == Int(-(n as int))
  {
    var u := Decimal(n) + t;
    assert "-" + Decimal(n) + t == "-" + u;
    DecimalDigits(n, t);
    SignedValue(u, n);
  }

  // ---------------------------------------------------------------------
  // parseTextKeyboardMap

  /** `map(row => ...)`: every line of the map reduced to its tokens. */
  function LineTokens(lines: seq<string>): seq<seq<string>>
  {
    seq(|lines|, k requires 0 <= k < |lines| => Tokens(lines[k]))
  }

  /** The `elements` of `parseTextKeyboardMap`: the lines split at line
      breaks, each reduced to its tokens, lines without tokens dropped. */
  function Elements(text: string): (rows: seq<seq<string>>)
    ensures forall k | 0 <= k < |rows| :: rows[k] != []
  {
    NonEmpty(LineTokens(Split(text, IsNewline)))
  }

  lemma LineTokensConcat(a: seq<string>, b: seq<string>)
    ensures LineTokens(a + b) == LineTokens(a) + LineTokens(b)
  {
    assert forall k | 0 <= k < |a + b| :: (a + b)[k] == if k < |a| then a[k] else b[k - |a|];
  }

  /** The rows of two parts of a map joined at a line break are the rows of
      each part, in order. */
  lemma ElementsConcat(a: string, b: string)
    ensures Elements(a + "\n" + b) == Elements(a) + Elements(b)
  {
    assert a + "\n" + b == a + ['\n'] + b;
    SplitConcat(a, '\n', b, IsNewline);
    LineTokensConcat(Split(a, IsNewline), Split(b, IsNewline));
    NonEmptyConcat(LineTokens(Split(a, IsNewline)), LineTokens(Split(b, IsNewline)));
  }

  /** A single line is one row of its tokens, or nothing when it is blank. */
  lemma ElementsOfLine(line: string)
    requires forall k | 0 <= k < |line| :: line[k] != '\n'
    ensures Elements(line) == if Tokens(line) == [] then [] else [Tokens(line)]
  {
    SplitNoSeparator(line, IsNewline);
    assert LineTokens([line]) == [Tokens(line)];
    NonEmptySingle(Tokens(line));
  }

  /** A line of white space between two parts of a map changes nothing:
      the map is read as if the line were not there. */
  lemma BlankLineIgnored(a: string, blank: string, b: string)
    requires forall k | 0 <= k < |blank| :: IsSpace(blank[k]) && blank[k] != '\n'
    ensures Elements(a + "\n" + blank + "\n" + b) == Elements(a + "\n" + b)
  {
    BlankLineNoRows(blank);
    RowlessLineIgnored(a, blank, b);
  }

  /** A line that holds no row is skipped when the rows are collected. */
  lemma RowlessLineIgnored(a: string, line: string, b: string)
    requires Elements(line) == []
    ensures Elements(a + "\n" + line + "\n" + b) == Elements(a + "\n" + b)
  {
    var rest := line + "\n" + b;
    assert a + "\n" + line + "\n" + b == a + "\n" + rest;
    ElementsConcat(a, rest);
    ElementsConcat(line, b);
    ElementsConcat(a, b);
  }

  /** A line of white space holds no row. */
  lemma BlankLineNoRows(blank: string)
    requires forall k | 0 <= k < |blank| :: IsSpace(blank[k]) && blank[k] != '\n'
    ensures Elements(blank) == []
  {
    ElementsOfLine(blank);
    TokensEmptyIff(blank);
  }

  /** `filter((e, i) => i % 2 === 1)`: the elements at odd positions. */
  function OddIndexed<T>(s: seq<T>): (r: seq<T>)
    ensures |r| == |s| / 2
    ensures forall k | 0 <= k < |r| :: r[k] == s[2 * k + 1]
  {
    if |s| < 2 then [] else [s[1]] + OddIndexed(s[2..])
  }

  /** The value of `Math.max(...lengths)`: minus infinity for no argument. */
  datatype Width = NegInfinity | Finite(n: nat)

  /** `Math.max(...rows.map(e => e.length))`. */
  function MaxLength(rows: seq<seq<string>>): (w: Width)
    ensures w.NegInfinity? <==> rows == []
    ensures w.Finite? ==> forall k | 0 <= k < |rows| :: |rows[k]| <= w.n
    ensures w.Finite? ==> exists k | 0 <= k < |rows| :: |rows[k]| == w.n
  {
    if rows == [] then NegInfinity
    else
      var w := MaxLength(rows[1..]);
      if w.Finite? && w.n > |rows[0]| then w else Finite(|rows[0]|)
  }

  /** The grid `parseTextKeyboardMap` returns, with its `shape`. */
  datatype KeyboardMap = KeyboardMap(cells: seq<seq<ParsedInt>>, height: nat, width: Width)

  /** The cell at column `x` of an index row: the parsed index, or -1 past
      the end of the row. */
  function Cell(tokens: seq<string>, x: nat): ParsedInt
  {
    if x < |tokens| then ParseInt(tokens[x]) else Int(-1)
  }

  /** The inner loop of `parseTextKeyboardMap`: one row of the grid. */
  method BuildRow(tokens: seq<string>, width: nat) returns (row: seq<ParsedInt>)
    ensures |row| == width
    ensures forall x | 0 <= x < width :: row[x] == Cell(tokens, x)
  {
    row := [];
    for x := 0 to width
      invariant |row| == x
      invariant forall i | 0 <= i < x :: row[i] == Cell(tokens, i)
    {
      var keyIndex := Cell(tokens, x);
      row := row + [keyIndex];
    }
  }

  /** `parseTextKeyboardMap`: the map alternates label lines and index
      lines; only the index lines (the second, fourth, ... non-blank line)
      are kept, every row is padded with -1 to the longest one, and every
      index token is read with `parseInt`. */
  method ParseTextKeyboardMap(text: string) returns (kbd: KeyboardMap)
    ensures kbd.height == |kbd.cells| == |Elements(text)| / 2
    ensures kbd.width.NegInfinity? <==> kbd.height == 0
    ensures kbd.width.Finite? ==> forall y | 0 <= y < kbd.height :: |Elements(text)[2 * y + 1]| <= kbd.width.n
    ensures kbd.width.Finite? ==> exists y | 0 <= y < kbd.height :: |Elements(text)[2 * y + 1]| == kbd.width.n
    ensures forall y | 0 <= y < kbd.height :: kbd.width.Finite? && |kbd.cells[y]| == kbd.width.n
    ensures forall y, x | 0 <= y < kbd.height && 0 <= x < |kbd.cells[y]| ::
              kbd.cells[y][x] == Cell(Elements(text)[2 * y + 1], x)
  {
    kbd := IndexGrid(Elements(text));
  }

  /** The grid built from the token rows of a map. */
  method IndexGrid(elements: seq<seq<string>>) returns (kbd: KeyboardMap)
    ensures kbd.height == |kbd.cells| == |elements| / 2
    ensures kbd.width.NegInfinity? <==> kbd.height == 0
    ensures kbd.width.Finite? ==> forall y | 0 <= y < kbd.height :: |elements[2 * y + 1]| <= kbd.width.n
    ensures kbd.width.Finite? ==> exists y | 0 <= y < kbd.height :: |elements[2 * y + 1]| == kbd.width.n
    ensures forall y | 0 <= y < kbd.height :: kbd.width.Finite? && |kbd.cells[y]| == kbd.width.n
    ensures forall y, x | 0 <= y < kbd.height && 0 <= x < |kbd.cells[y]| ::
              kbd.cells[y][x] == Cell(elements[2 * y + 1], x)
  {
    var indexRows := OddIndexed(elements);
    var mapWidth := MaxLength(indexRows);
    var mapHeight := |indexRows|;
    var w := if mapWidth.Finite? then mapWidth.n else 0;
    var cells: seq<seq<ParsedInt>> := [];
    for y := 0 to mapHeight
      invariant |cells| == y
      invariant forall j | 0 <= j < y :: |cells[j]| == w
      invariant forall j, x | 0 <= j < y && 0 <= x < w :: cells[j][x] == Cell(indexRows[j], x)
    {
      var row := BuildRow(indexRows[y], w);
      cells := cells + [row];
    }
    kbd := KeyboardMap(cells, mapHeight, mapWidth);
    forall y, x | 0 <= y < mapHeight && 0 <= x < |cells[y]|
      ensures cells[y][x] == Cell(elements[2 * y + 1], x)
    {
      assert indexRows[y] == elements[2 * y + 1];
    }
    MaxLengthOfIndexRows(elements, mapWidth);
  }

  lemma MaxLengthOfIndexRows(elements: seq<seq<string>>, w: Width)
    requires w == MaxLength(OddIndexed(elements))
    ensures w.Finite? ==> forall y | 0 <= y < |elements| / 2 :: |elements[2 * y + 1]| <= w.n
    ensures w.Finite? ==> exists y | 0 <= y < |elements| / 2 :: |elements[2 * y + 1]| == w.n
  {
    var rows := OddIndexed(elements);
    if w.Finite? {
      forall y | 0 <= y < |elements| / 2
        ensures |elements[2 * y + 1]| <= w.n
      {
        assert rows[y] == elements[2 * y + 1];
      }
      var k :| 0 <= k < |rows| && |rows[k]| == w.n;
      assert |elements[2 * k + 1]| == w.n;
    }
  }

  // ---------------------------------------------------------------------
  // matrixifyQMK

  /** A key of a QMK layout: its position `x`, `y` and size `w`, `h` in key
      units, and its label. */
  datatype QmkKey = QmkKey(x: real, y: real, w: real, h: real, keyLabel: string)

  /** A key placed in the matrix: `{ x_index, y_index, ...e }`. */
  datatype MatrixKey = MatrixKey(xIndex: nat, yIndex: nat, key: QmkKey)

  function YValues(layout: seq<QmkKey>): (ys: seq<real>)
    ensures |ys| == |layout|
    ensures forall i | 0 <= i < |layout| :: ys[i] == layout[i].y
  {
    seq(|layout|, i requires 0 <= i < |layout| => layout[i].y)
  }

  /** `filter(e => e.y === y)`: the keys of one row, in layout order. */
  function WithY(layout: seq<QmkKey>, y: real): (row: seq<QmkKey>)
    ensures |row| <= |layout|
    ensures forall k | 0 <= k < |row| :: row[k].y == y && row[k] in layout
    ensures forall k | 0 <= k < |layout| && layout[k].y == y :: layout[k] in row
  {
    if layout == [] then []
    else (if layout[0].y == y then [layout[0]] else []) + WithY(layout[1..], y)
  }

  /** `map((e, x_index) => ({ x_index, y_index, ...e }))`. */
  function Numbered(keys: seq<QmkKey>, yIndex: nat): (row: seq<MatrixKey>)
    ensures |row| == |keys|
    ensures forall k | 0 <= k < |row| :: row[k] == MatrixKey(k, yIndex, keys[k])
  {
    seq(|keys|, k requires 0 <= k < |keys| => MatrixKey(k, yIndex, keys[k]))
  }

  /** `matrixifyQMK`: one row per distinct `y`, in order of first
      appearance, holding the keys with that `y` in layout order, each
      tagged with its column and row index. */
  function MatrixifyQMK(layout: seq<QmkKey>): (m: seq<seq<MatrixKey>>)
    ensures |m| == |Dedup(YValues(layout))| <= |layout|
    ensures forall yi, xi | 0 <= yi < |m| && 0 <= xi < |m[yi]| ::
              m[yi][xi].xIndex == xi && m[yi][xi].yIndex == yi
              && m[yi][xi].key.y == Dedup(YValues(layout))[yi] && m[yi][xi].key in layout
  {
    var ys := Dedup(YValues(layout));
    seq(|ys|, yi requires 0 <= yi < |ys| => Numbered(WithY(layout, ys[yi]), yi))
  }

  lemma {:induction false} WithYConcat(a: seq<QmkKey>, b: seq<QmkKey>, y: real)
    ensures WithY(a + b, y) == WithY(a, y) + WithY(b, y)
  {
    if a != [] {
      assert (a + b)[0] == a[0];
      assert (a + b)[1..] == a[1..] + b;
      WithYConcat(a[1..], b, y);
    } else {
      assert a + b == b;
    }
  }

  /** Every key of the layout is in the matrix: in the row of its `y`, at
      the column that counts the earlier keys with the same `y`. */
  lemma KeyPlacement(layout: seq<QmkKey>, i: nat) returns (yi: nat, xi: nat)
    requires i < |layout|
    ensures yi < |Dedup(YValues(layout))| && Dedup(YValues(layout))[yi] == layout[i].y
    ensures xi == |WithY(layout[..i], layout[i].y)|
    ensures yi < |MatrixifyQMK(layout)| && xi < |MatrixifyQMK(layout)[yi]|
    ensures MatrixifyQMK(layout)[yi][xi] == MatrixKey(xi, yi, layout[i])
  {
    var ys := YValues(layout);
    var y := layout[i].y;
    assert ys[i] == y;
    var d := Dedup(ys);
    assert y in d;
    var j :| 0 <= j < |d| && d[j] == y;
    yi := j;
    xi := |WithY(layout[..i], y)|;
    assert layout == layout[..i] + ([layout[i]] + layout[i + 1..]);
    WithYConcat(layout[..i], [layout[i]] + layout[i + 1..], y);
    assert WithY([layout[i]] + layout[i + 1..], y)[0] == layout[i];
  }

  /** How often `v` occurs in `ds`. */
  function Occurrences(ds: seq<real>, v: real): nat
  {
    if ds == [] then 0 else (if ds[0] == v then 1 else 0) + Occurrences(ds[1..], v)
  }

  lemma {:induction false} OccursOnce(ds: seq<real>, v: real)
    requires NoDuplicates(ds) && v in ds
    ensures Occurrences(ds, v) == 1
  {
    if ds[0] == v {
      OccursNever(ds[1..], v);
    } else {
      OccursOnce(ds[1..], v);
    }
  }

  lemma {:induction false} OccursNever(ds: seq<real>, v: real)
    requires v !in ds
    ensures Occurrences(ds, v) == 0
  {
    if ds != [] {
      OccursNever(ds[1..], v);
    }
  }

  /** The number of keys in the rows for the values `ds`. */
  function RowSizes(ds: seq<real>, layout: seq<QmkKey>): nat
  {
    if ds == [] then 0 else |WithY(layout, ds[0])| + RowSizes(ds[1..], layout)
  }

  lemma {:induction false} RowSizesCons(ds: seq<real>, layout: seq<QmkKey>)
    requires layout != []
    ensures RowSizes(ds, layout) == Occurrences(ds, layout[0].y) + RowSizes(ds, layout[1..])
  {
    if ds != [] {
      RowSizesCons(ds[1..], layout);
    }
  }

  lemma {:induction false} RowSizesNone(ds: seq<real>)
    ensures RowSizes(ds, []) == 0
  {
    if ds != [] {
      RowSizesNone(ds[1..]);
    }
  }

  lemma {:induction false} RowSizesAll(ds: seq<real>, layout: seq<QmkKey>)
    requires NoDuplicates(ds)
    requires forall k | 0 <= k < |layout| :: layout[k].y in ds
    ensures RowSizes(ds, layout) == |layout|
  {
    if layout != [] {
      RowSizesCons(ds, layout);
      OccursOnce(ds, layout[0].y);
      assert forall k | 0 <= k < |layout| - 1 :: layout[1..][k] == layout[k + 1];
      RowSizesAll(ds, layout[1..]);
    } else {
      RowSizesNone(ds);
    }
  }

  /** The number of keys in all rows of `m`. */
  function KeyCount(m: seq<seq<MatrixKey>>): nat
  {
    if m == [] then 0 else |m[0]| + KeyCount(m[1..])
  }

  lemma {:induction false} KeyCountSuffix(layout: seq<QmkKey>, j: nat)
    requires j <= |Dedup(YValues(layout))|
    ensures KeyCount(MatrixifyQMK(layout)[j..]) == RowSizes(Dedup(YValues(layout))[j..], layout)
    decreases |Dedup(YValues(layout))| - j
  {
    var m := MatrixifyQMK(layout);
    var d := Dedup(YValues(layout));
    if j < |d| {
      KeyCountSuffix(layout, j + 1);
      assert m[j..][1..] == m[j + 1..];
      assert d[j..][1..] == d[j + 1..];
    }
  }

  /** No key is lost or repeated: the rows hold as many keys as the layout. */
  lemma MatrixKeepsKeyCount(layout: seq<QmkKey>)
    ensures KeyCount(MatrixifyQMK(layout)) == |layout|
  {
    var ys := YValues(layout);
    var d := Dedup(ys);
    KeyCountSuffix(layout, 0);
    assert MatrixifyQMK(layout)[0..] == MatrixifyQMK(layout);
    assert d[0..] == d;
    forall k | 0 <= k < |layout|
      ensures layout[k].y in d
    {
      assert ys[k] == layout[k].y;
    }
    RowSizesAll(d, layout);
  }

  /** The rows come in the order in which their `y` first appears in the
      layout, and no two rows share a `y`. */
  lemma MatrixRowOrder(layout: seq<QmkKey>)
    ensures forall i, j | 0 <= i < j < |Dedup(YValues(layout))| ::
              Dedup(YValues(layout))[i] != Dedup(YValues(layout))[j]
              && FirstIndex(YValues(layout), Dedup(YValues(layout))[i])
                 < FirstIndex(YValues(layout), Dedup(YValues(layout))[j])
  {
    DedupFirstAppearance(YValues(layout));
  }
}
