/**
 * The text form of a board: the 13-line boxed layout that Board::str produces, the
 * way std::getline cuts a stream into lines, and what operator>> makes of those lines.
 * The functions here are the specifications that Board.Str and Read are proved
 * against; the lemmas state the layout, the parser's rules, and that parsing the
 * rendering of a board whose cells are digits gives the board back.
 */
module Text {
  import opened Grid

  /** The top and bottom border. */
  const Border: string := "+-----------------------+"

  /** The line between two bands of three rows. */
  const Separator: string := "|-------+-------+-------|"

  /** The character of a decimal digit 0..9. */
  function DigitChar(d: int): (ch: char)
    requires 0 <= d <= 9
    ensures '0' <= ch <= '9' && ch as int - '0' as int == d
  {
    ('0' as int + d) as char
  }

  /** The decimal digits of a natural number, most significant first. */
  function NatDigits(n: nat): (s: string)
    ensures |s| >= 1 && forall i :: 0 <= i < |s| ==> '0' <= s[i] <= '9'
    decreases n
  {
    if n < 10 then [DigitChar(n)] else NatDigits(n / 10) + [DigitChar(n % 10)]
  }

  /** An int as `operator<<` writes it: an optional minus sign, then its digits. */
  function Decimal(n: int): (s: string)
    ensures 0 <= n <= 9 ==> s == [DigitChar(n)]
    ensures forall i :: 0 <= i < |s| ==> s[i] == '-' || '0' <= s[i] <= '9'
  {
    if n < 0 then "-" + NatDigits(-n) else NatDigits(n)
  }

  /**
   * The text that the column loop of str() writes for column `c` of a row: a leading
   * "| " before column 0, the value and a space, and "| " after columns 2, 5 and 8.
   */
  function CellText(row: seq<int>, c: int): string
    requires 0 <= c < |row|
  {
    (if c == 0 then "| " else "") + Decimal(row[c]) + " " + (if BoxEnd(c) then "| " else "")
  }

  /** The columns after which a 3x3 box ends. */
  predicate BoxEnd(c: int) {
    c == 2 || c == 5 || c == 8
  }

  /** The text written for the first `n` columns of a row. */
  function RowText(row: seq<int>, n: int): string
    requires 0 <= n <= |row|
    decreases n
  {
    if n == 0 then "" else RowText(row, n - 1) + CellText(row, n - 1)
  }

  /** A content line: `| d d d | d d d | d d d | ` for a row of digits. */
  function ContentLine(row: seq<int>): string
    requires |row| == 9
  {
    RowText(row, |row|)
  }

  /**
   * Line k (0..12) of the rendering: the border first and last, a separator after
   * the content lines of rows 2 and 5, and the content line of row k - 1 - k / 4
   * everywhere else.
   */
  function RenderLine(g: seq<seq<int>>, k: int): string
    requires IsGrid(g) && 0 <= k < 13
  {
    if k == 0 || k == 12 then Border
    else if k == 4 || k == 8 then Separator
    else ContentLine(g[k - 1 - k / 4])
  }

  /** Three cells of a row of digits, each digit followed by a space: `d d d `. */
  function Triple(row: seq<int>, i: int): string
    requires 0 <= i && i + 3 <= |row| && forall j :: 0 <= j < |row| ==> 0 <= row[j] <= 9
  {
    [DigitChar(row[i])] + " " + [DigitChar(row[i + 1])] + " " + [DigitChar(row[i + 2])] + " "
  }

  /** The content line of a row of digits written out: `| d d d | d d d | d d d | `. */
  function BoxedRow(row: seq<int>): string
    requires |row| == 9 && forall j :: 0 <= j < 9 ==> 0 <= row[j] <= 9
  {
    "| " + Triple(row, 0) + "| " + Triple(row, 3) + "| " + Triple(row, 6) + "| "
  }

  /** The cell text of a digit: the digit's character between the optional box bars. */
  lemma CellTextOfDigit(row: seq<int>, c: int)
    requires 0 <= c < |row| && 0 <= row[c] <= 9
    ensures CellText(row, c) ==
      (if c == 0 then "| " else "") + [DigitChar(row[c])] + " " + (if BoxEnd(c) then "| " else "")
  {
  }

  lemma BoxPieces(a: string, p: string, d0: string, d1: string, d2: string, c0: string, c1: string, c2: string)
    requires c0 == p + d0 + " " + "" && c1 == "" + d1 + " " + "" && c2 == "" + d2 + " " + "| "
    ensures a + c0 + c1 + c2 == a + p + (d0 + " " + d1 + " " + d2 + " ") + "| "
  {
  }

  /** RowText grows by one cell text per column. */
  lemma RowTextSnoc(row: seq<int>, n: int)
    requires 0 <= n < |row|
    ensures RowText(row, n + 1) == RowText(row, n) + CellText(row, n)
  {
  }

  /** The three columns of one box add its digits and the closing bar to the line. */
  lemma RowTextBox(row: seq<int>, i: int)
    requires |row| == 9 && forall j :: 0 <= j < 9 ==> 0 <= row[j] <= 9
    requires i == 0 || i == 3 || i == 6
    ensures RowText(row, i + 3) == RowText(row, i) + (if i == 0 then "| " else "") + Triple(row, i) + "| "
  {
    var a := RowText(row, i);
    var c0, c1, c2 := CellText(row, i), CellText(row, i + 1), CellText(row, i + 2);
    RowTextSnoc(row, i);
    RowTextSnoc(row, i + 1);
    RowTextSnoc(row, i + 2);
    assert RowText(row, i + 3) == a + c0 + c1 + c2;
    CellTextOfDigit(row, i);
    CellTextOfDigit(row, i + 1);
    CellTextOfDigit(row, i + 2);
    assert !BoxEnd(i) && !BoxEnd(i + 1) && BoxEnd(i + 2) && i + 1 != 0 && i + 2 != 0;
    BoxPieces(a, if i == 0 then "| " else "",
      [DigitChar(row[i])], [DigitChar(row[i + 1])], [DigitChar(row[i + 2])], c0, c1, c2);
  }

  lemma BoxChain(r3: string, r6: string, r9: string, t0: string, t1: string, t2: string)
    requires r3 == "" + "| " + t0 + "| " && r6 == r3 + "" + t1 + "| " && r9 == r6 + "" + t2 + "| "
    ensures r9 == "| " + t0 + "| " + t1 + "| " + t2 + "| "
  {
  }

  /**
   * The content line of a row of digits is the boxed line `| d d d | d d d | d d d | `:
   * 26 characters, a trailing space included.
   */
  lemma ContentLineLayout(row: seq<int>)
    requires |row| == 9 && forall j :: 0 <= j < 9 ==> 0 <= row[j] <= 9
    ensures ContentLine(row) == BoxedRow(row) && |ContentLine(row)| == 26
  {
    RowTextBox(row, 0);
    RowTextBox(row, 3);
    RowTextBox(row, 6);
    assert RowText(row, 0) == "";
    BoxChain(RowText(row, 3), RowText(row, 6), RowText(row, 9), Triple(row, 0), Triple(row, 3), Triple(row, 6));
    assert |Triple(row, 0)| == 6 && |Triple(row, 3)| == 6 && |Triple(row, 6)| == 6;
  }

  /** The 13 lines of the rendering, without their line breaks. */
  function RenderLines(g: seq<seq<int>>): (ls: seq<string>)
    requires IsGrid(g)
    ensures |ls| == 13
  {
    seq(13, k requires 0 <= k < 13 => RenderLine(g, k))
  }

  /** Line k of the rendering, for k not a border or separator line, is a content line. */
  lemma ContentLineAt(g: seq<seq<int>>, k: int)
    requires IsGrid(g) && 0 < k < 12 && k != 4 && k != 8
    ensures RenderLines(g)[k] == ContentLine(g[k - 1 - k / 4])
  {
    assert RenderLines(g)[k] == RenderLine(g, k);
  }

  /** Lines 0 and 12 of the rendering are the border, lines 4 and 8 the separator. */
  lemma FrameLineAt(g: seq<seq<int>>, k: int)
    requires IsGrid(g) && (k == 0 || k == 4 || k == 8 || k == 12)
    ensures RenderLines(g)[k] == if k == 0 || k == 12 then Border else Separator
  {
    assert RenderLines(g)[k] == RenderLine(g, k);
  }

  /** The lines, each followed by a line break. */
  function Join(ls: seq<string>): string
    decreases |ls|
  {
    if ls == [] then "" else Join(ls[..|ls| - 1]) + ls[|ls| - 1] + "\n"
  }

  /** Writing one more line extends the joined text by that line and a line break. */
  lemma JoinSnoc(ls: seq<string>, j: int)
    requires 0 <= j < |ls|
    ensures Join(ls[..j + 1]) == Join(ls[..j]) + ls[j] + "\n"
  {
    assert ls[..j + 1][..j] == ls[..j];
  }

  /** Appending a line and its break to the first n lines gives the first n + 1 lines. */
  lemma AppendLine(ls: seq<string>, n: int, s: string, line: string)
    requires 0 <= n < |ls| && s == Join(ls[..n]) && ls[n] == line
    ensures s + line + "\n" == Join(ls[..n + 1])
  {
    JoinSnoc(ls, n);
  }

  /** What Board::str returns. */
  function Render(g: seq<seq<int>>): string
    requires IsGrid(g)
  {
    Join(RenderLines(g))
  }

  /** The index of the first line break in s at index k or later, or |s| when there is none. */
  function LineEnd(s: string, k: int): (e: int)
    requires 0 <= k <= |s|
    ensures k <= e <= |s| && (e < |s| ==> s[e] == '\n')
    ensures forall j :: k <= j < e ==> s[j] != '\n'
    decreases |s| - k
  {
    if k == |s| || s[k] == '\n' then k else LineEnd(s, k + 1)
  }

  /**
   * The lines that repeated std::getline calls extract from a stream holding `s`: the
   * text between line breaks, plus the text after the last break when it is not empty.
   */
  function Lines(s: string): seq<string>
    decreases |s|
  {
    if s == [] then []
    else
      var e := LineEnd(s, 0);
      if e == |s| then [s] else [s[..e]] + Lines(s[e + 1..])
  }

  // ----- The parser (operator>>) -----

  /**
   * The outcome of reading a board.  Parsed and BadCharacter are the two outcomes the
   * source defines (success, and failbit with the board left alone); the other three
   * stand for inputs on which the source's behaviour is undefined: an empty line
   * (it reads line[1]), a tenth digit in a row (it writes past the row) and a grid
   * left with cells that no digit was written to.
   */
  datatype ReadResult =
    | Parsed(grid: seq<seq<int>>)
    | BadCharacter
    | EmptyLine
    | TooManyDigits
    | MissingCells

  /** The characters `ss >> ch` skips: the C locale's white space. */
  predicate IsSpace(ch: char) {
    ch == ' ' || ch == '\t' || ch == '\n' || ch == '\r' || ch == '\U{0B}' || ch == '\U{0C}'
  }

  predicate IsDigit(ch: char) {
    '0' <= ch <= '9'
  }

  /** Characters that the parser passes over inside a content line. */
  predicate Ignorable(ch: char) {
    IsSpace(ch) || ch == '|'
  }

  /** A line that the parser skips as formatting: its second character is a dash. */
  predicate IsDashLine(line: string) {
    |line| >= 2 && line[1] == '-'
  }

  /** The outcome of reading the digits of one content line. */
  datatype RowScan = Row(digits: seq<int>) | Bad | Overflow

  /**
   * Read the rest `s` of a content line, `ds` being the digits read so far: skip white
   * space and '|', fail on any other non-digit, and stop at a tenth digit.
   */
  function ScanRow(s: string, ds: seq<int>): RowScan
    decreases |s|
  {
    if s == [] then Row(ds)
    else if Ignorable(s[0]) then ScanRow(s[1..], ds)
    else if !IsDigit(s[0]) then Bad
    else if |ds| >= 9 then Overflow
    else ScanRow(s[1..], ds + [s[0] as int - '0' as int])
  }

  /** The board built from the content rows read: defined only when all 81 cells were written. */
  function Finish(rows: seq<seq<int>>): ReadResult {
    if |rows| == 9 && forall i :: 0 <= i < 9 ==> |rows[i]| == 9 then Parsed(rows) else MissingCells
  }

  /**
   * Read the remaining lines, `rows` being the content rows read so far.  A dash line
   * is skipped before the row limit is looked at; once nine content rows are read,
   * the next other line ends the reading.
   */
  function ParseFrom(lines: seq<string>, rows: seq<seq<int>>): ReadResult
    decreases |lines|
  {
    if lines == [] then Finish(rows)
    else if |lines[0]| == 0 then EmptyLine
    else if IsDashLine(lines[0]) then ParseFrom(lines[1..], rows)
    else if |rows| >= 9 then Finish(rows)
    else
      match ScanRow(lines[0], [])
      case Bad => BadCharacter
      case Overflow => TooManyDigits
      case Row(ds) => ParseFrom(lines[1..], rows + [ds])
  }

  /** What operator>> makes of the lines of its stream. */
  function ParseLines(lines: seq<string>): ReadResult {
    ParseFrom(lines, [])
  }

  // ----- Properties of the scanner -----

  /** Every character is a digit or one the parser passes over. */
  ghost predicate AllowedText(s: string) {
    forall i :: 0 <= i < |s| ==> Ignorable(s[i]) || IsDigit(s[i])
  }

  /** The values of the digits of s, in order. */
  function DigitsOf(s: string): seq<int>
    decreases |s|
  {
    if s == [] then []
    else (if IsDigit(s[0]) then [s[0] as int - '0' as int] else []) + DigitsOf(s[1..])
  }

  lemma {:induction false} DigitsOfAppend(a: string, b: string)
    ensures DigitsOf(a + b) == DigitsOf(a) + DigitsOf(b)
    decreases |a|
  {
    if a == [] {
      assert a + b == b;
    } else {
      assert (a + b)[0] == a[0];
      assert (a + b)[1..] == a[1..] + b;
      DigitsOfAppend(a[1..], b);
    }
  }

  /** A character the parser rejects inside a content line. */
  predicate Foreign(ch: char) {
    !Ignorable(ch) && !IsDigit(ch)
  }

  lemma AllowedTextCons(ch: char, t: string)
    ensures AllowedText([ch] + t) <==> (Ignorable(ch) || IsDigit(ch)) && AllowedText(t)
  {
    var s := [ch] + t;
    assert s[0] == ch;
    if AllowedText(s) {
      forall j | 0 <= j < |t| ensures Ignorable(t[j]) || IsDigit(t[j]) {
        assert t[j] == s[j + 1];
      }
    }
    if (Ignorable(ch) || IsDigit(ch)) && AllowedText(t) {
      forall j | 0 <= j < |s| ensures Ignorable(s[j]) || IsDigit(s[j]) {
        if j > 0 { assert s[j] == t[j - 1]; }
      }
    }
  }

  lemma AllowedTextAppend(a: string, b: string)
    requires AllowedText(a) && AllowedText(b)
    ensures AllowedText(a + b)
  {
    assert forall i :: |a| <= i < |a + b| ==> (a + b)[i] == b[i - |a|];
  }

  lemma {:induction false} DigitsOfNone(s: string)
    requires forall i :: 0 <= i < |s| ==> !IsDigit(s[i])
    ensures DigitsOf(s) == []
    decreases |s|
  {
    if s != [] {
      DigitsOfNone(s[1..]);
    }
  }

  /**
   * A line is accepted exactly when it holds only digits, white space and '|', and at
   * most nine digits in all (counting the `ds` already read); the digits read are
   * then those of the line, in order.
   */
  lemma {:induction false} ScanRowAccepts(s: string, ds: seq<int>)
    requires |ds| <= 9
    ensures ScanRow(s, ds).Row? <==> AllowedText(s) && |ds| + |DigitsOf(s)| <= 9
    ensures ScanRow(s, ds).Row? ==> ScanRow(s, ds).digits == ds + DigitsOf(s)
    decreases |s|
  {
    if s != [] {
      var t := s[1..];
      assert s == [s[0]] + t;
      AllowedTextCons(s[0], t);
      if Ignorable(s[0]) {
        ScanRowAccepts(t, ds);
      } else if IsDigit(s[0]) && |ds| < 9 {
        ScanRowAccepts(t, ds + [s[0] as int - '0' as int]);
      }
    }
  }

  /**
   * A character other than a digit, white space or '|' makes the read fail, provided
   * no tenth digit comes before it.
   */
  lemma {:induction false} ScanRowRejects(a: string, ch: char, b: string, ds: seq<int>)
    requires Foreign(ch) && AllowedText(a) && |ds| + |DigitsOf(a)| <= 9
    ensures ScanRow(a + [ch] + b, ds) == Bad
    decreases |a|
  {
    var s := a + [ch] + b;
    if a == [] {
      assert s[0] == ch;
    } else {
      assert a == [a[0]] + a[1..];
      AllowedTextCons(a[0], a[1..]);
      assert s[0] == a[0];
      assert s[1..] == a[1..] + [ch] + b;
      if Ignorable(a[0]) {
        ScanRowRejects(a[1..], ch, b, ds);
      } else {
        ScanRowRejects(a[1..], ch, b, ds + [a[0] as int - '0' as int]);
      }
    }
  }

  // ----- Properties of the parser -----

  /** A successful read yields nine rows of nine digits. */
  lemma {:induction false} ParseFromDigits(lines: seq<string>, rows: seq<seq<int>>)
    requires forall i, j :: 0 <= i < |rows| && 0 <= j < |rows[i]| ==> 0 <= rows[i][j] <= 9
    ensures ParseFrom(lines, rows).Parsed? ==>
      var g := ParseFrom(lines, rows).grid;
      IsGrid(g) && forall r, c :: InRange(r, c) ==> 0 <= g[r][c] <= 9
    decreases |lines|
  {
    if lines != [] && |lines[0]| != 0 {
      if IsDashLine(lines[0]) {
        ParseFromDigits(lines[1..], rows);
      } else if |rows| < 9 {
        ScanRowDigits(lines[0], []);
        match ScanRow(lines[0], [])
        case Bad =>
        case Overflow =>
        case Row(ds) => ParseFromDigits(lines[1..], rows + [ds]);
      }
    }
  }

  lemma {:induction false} ScanRowDigits(s: string, ds: seq<int>)
    requires forall j :: 0 <= j < |ds| ==> 0 <= ds[j] <= 9
    ensures ScanRow(s, ds).Row? ==> |ScanRow(s, ds).digits| <= 9 || |ScanRow(s, ds).digits| == |ds|
    ensures ScanRow(s, ds).Row? ==> forall j :: 0 <= j < |ScanRow(s, ds).digits| ==> 0 <= ScanRow(s, ds).digits[j] <= 9
    decreases |s|
  {
    if s != [] {
      if Ignorable(s[0]) {
        ScanRowDigits(s[1..], ds);
      } else if IsDigit(s[0]) && |ds| < 9 {
        ScanRowDigits(s[1..], ds + [s[0] as int - '0' as int]);
      }
    }
  }

  /** Whatever follows the line that ends the reading after nine content rows is never read. */
  lemma {:induction false} ParseFromIgnoresTail(lines: seq<string>, rows: seq<seq<int>>, extra: string, more: seq<string>)
    requires ParseFrom(lines, rows).Parsed?
    requires |extra| > 0 && !IsDashLine(extra)
    ensures ParseFrom(lines + [extra] + more, rows) == ParseFrom(lines, rows)
    decreases |lines|
  {
    if lines != [] {
      assert (lines + [extra] + more)[0] == lines[0];
      assert (lines + [extra] + more)[1..] == lines[1..] + [extra] + more;
      if IsDashLine(lines[0]) {
        ParseFromIgnoresTail(lines[1..], rows, extra, more);
      } else if |rows| < 9 {
        match ScanRow(lines[0], [])
        case Bad =>
        case Overflow =>
        case Row(ds) => ParseFromIgnoresTail(lines[1..], rows + [ds], extra, more);
      }
    }
  }

  /** Reading stops after nine content rows: adding lines after the one that ends it changes nothing. */
  lemma ParseIgnoresExcessLines(lines: seq<string>, extra: string, more: seq<string>)
    requires ParseLines(lines).Parsed?
    requires |extra| > 0 && !IsDashLine(extra)
    ensures ParseLines(lines + [extra] + more) == ParseLines(lines)
  {
    ParseFromIgnoresTail(lines, [], extra, more);
  }

  /**
   * A line whose second character is a dash is skipped wherever it stands: removing it
   * from the input does not change the outcome.
   */
  lemma {:induction false} ParseFromSkipsDash(a: seq<string>, d: string, b: seq<string>, rows: seq<seq<int>>)
    requires IsDashLine(d)
    ensures ParseFrom(a + [d] + b, rows) == ParseFrom(a + b, rows)
    decreases |a|
  {
    if a == [] {
      assert a + [d] + b == [d] + b && ([d] + b)[1..] == b;
      assert a + b == b;
    } else {
      assert (a + [d] + b)[0] == a[0] && (a + b)[0] == a[0];
      assert (a + [d] + b)[1..] == a[1..] + [d] + b && (a + b)[1..] == a[1..] + b;
      if |a[0]| != 0 {
        if IsDashLine(a[0]) {
          ParseFromSkipsDash(a[1..], d, b, rows);
        } else if |rows| < 9 {
          match ScanRow(a[0], [])
          case Bad =>
          case Overflow =>
          case Row(ds) => ParseFromSkipsDash(a[1..], d, b, rows + [ds]);
        }
      }
    }
  }

  // ----- Properties of the rendering -----

  /** s holds no line break. */
  predicate NoBreak(s: string) {
    forall i :: 0 <= i < |s| ==> s[i] != '\n'
  }

  lemma {:induction false} JoinCons(l: string, ls: seq<string>)
    ensures Join([l] + ls) == l + "\n" + Join(ls)
    decreases |ls|
  {
    if ls != [] {
      var front := ls[..|ls| - 1];
      assert ([l] + ls)[..|ls|] == [l] + front;
      JoinCons(l, front);
    }
  }

  lemma LinesCons(l: string, rest: string)
    requires NoBreak(l)
    ensures Lines(l + "\n" + rest) == [l] + Lines(rest)
  {
    var s := l + "\n" + rest;
    assert forall j :: 0 <= j < |l| ==> s[j] == l[j];
    assert s[|l|] == '\n';
    assert LineEnd(s, 0) == |l|;
    assert s[..|l|] == l;
    assert s[|l| + 1..] == rest;
  }

  /** Cutting the rendering into lines gives back the lines, when none holds a line break. */
  lemma {:induction false} LinesOfJoin(ls: seq<string>)
    requires forall k :: 0 <= k < |ls| ==> NoBreak(ls[k])
    ensures Lines(Join(ls)) == ls
    decreases |ls|
  {
    if ls != [] {
      JoinCons(ls[0], ls[1..]);
      assert [ls[0]] + ls[1..] == ls;
      LinesCons(ls[0], Join(ls[1..]));
      LinesOfJoin(ls[1..]);
    }
  }

  lemma NoBreakAppend(a: string, b: string)
    requires NoBreak(a) && NoBreak(b)
    ensures NoBreak(a + b)
  {
    assert forall i :: |a| <= i < |a + b| ==> (a + b)[i] == b[i - |a|];
  }

  lemma CellTextNoBreak(row: seq<int>, c: int)
    requires 0 <= c < |row|
    ensures NoBreak(CellText(row, c))
  {
    var pre := if c == 0 then "| " else "";
    var post := if BoxEnd(c) then "| " else "";
    assert NoBreak(pre) && NoBreak(post) && NoBreak(" ");
    assert NoBreak(Decimal(row[c]));
    NoBreakAppend(pre, Decimal(row[c]));
    NoBreakAppend(pre + Decimal(row[c]), " ");
    NoBreakAppend(pre + Decimal(row[c]) + " ", post);
  }

  lemma {:induction false} RowTextNoBreak(row: seq<int>, n: int)
    requires 0 <= n <= |row|
    ensures NoBreak(RowText(row, n))
    decreases n
  {
    if n > 0 {
      RowTextNoBreak(row, n - 1);
      CellNoBreakStep(row, n);
    }
  }

  /** One more cell keeps a row's text free of line breaks. */
  lemma CellNoBreakStep(row: seq<int>, n: int)
    requires 0 < n <= |row| && NoBreak(RowText(row, n - 1))
    ensures NoBreak(RowText(row, n))
  {
    var front, cell := RowText(row, n - 1), CellText(row, n - 1);
    CellTextNoBreak(row, n - 1);
    assert RowText(row, n) == front + cell;
    NoBreakAppend(front, cell);
  }

  /** Every content line starts with "| ", so its second character is not a dash. */
  lemma {:induction false} RowTextStart(row: seq<int>, n: int)
    requires 1 <= n <= |row|
    ensures |RowText(row, n)| >= 2 && RowText(row, n)[0] == '|' && RowText(row, n)[1] == ' '
    decreases n
  {
    if n > 1 {
      RowTextStart(row, n - 1);
    } else {
      assert RowText(row, 1) == CellText(row, 0);
    }
  }

  /** Joining two texts made of allowed characters joins the digits they hold. */
  lemma AppendDigits(a: string, b: string)
    requires AllowedText(a) && AllowedText(b)
    ensures AllowedText(a + b) && DigitsOf(a + b) == DigitsOf(a) + DigitsOf(b)
  {
    DigitsOfAppend(a, b);
    AllowedTextAppend(a, b);
  }

  /** Text made only of white space and '|' is allowed and holds no digit. */
  lemma FrameText(s: string)
    requires forall i :: 0 <= i < |s| ==> s[i] == ' ' || s[i] == '|'
    ensures AllowedText(s) && DigitsOf(s) == []
  {
    DigitsOfNone(s);
  }

  /** A digit between two optional "| " pieces and before a space reads as that digit. */
  lemma PiecesDigits(pre: string, v: int, post: string)
    requires pre == "" || pre == "| "
    requires post == "" || post == "| "
    requires 0 <= v <= 9
    ensures AllowedText(pre + [DigitChar(v)] + " " + post)
    ensures DigitsOf(pre + [DigitChar(v)] + " " + post) == [v]
  {
    var d := [DigitChar(v)];
    assert AllowedText(d) && DigitsOf(d) == [v] by {
      assert d[1..] == [];
    }
    assert AllowedText(pre + d) && DigitsOf(pre + d) == [v] by {
      FrameText(pre);
      AppendDigits(pre, d);
    }
    assert AllowedText(pre + d + " ") && DigitsOf(pre + d + " ") == [v] by {
      FrameText(" ");
      AppendDigits(pre + d, " ");
    }
    FrameText(post);
    AppendDigits(pre + d + " ", post);
  }

  /** The text of one cell holding a digit is allowed and holds just that digit. */
  lemma CellTextDigits(row: seq<int>, c: int)
    requires 0 <= c < |row| && 0 <= row[c] <= 9
    ensures AllowedText(CellText(row, c)) && DigitsOf(CellText(row, c)) == [row[c]]
  {
    PiecesDigits(if c == 0 then "| " else "", row[c], if BoxEnd(c) then "| " else "");
  }

  /** Reading the text of the first n cells of a row of digits gives back those n cells. */
  lemma {:induction false} RowTextDigits(row: seq<int>, n: int)
    requires 0 <= n <= |row| && forall j :: 0 <= j < |row| ==> 0 <= row[j] <= 9
    ensures AllowedText(RowText(row, n)) && DigitsOf(RowText(row, n)) == row[..n]
    decreases n
  {
    if n > 0 {
      RowTextDigits(row, n - 1);
      CellDigitsStep(row, n);
    } else {
      assert row[..0] == [];
    }
  }

  /** One more cell of a row of digits adds its digit to what the row's text reads as. */
  lemma CellDigitsStep(row: seq<int>, n: int)
    requires 0 < n <= |row| && forall j :: 0 <= j < |row| ==> 0 <= row[j] <= 9
    requires AllowedText(RowText(row, n - 1)) && DigitsOf(RowText(row, n - 1)) == row[..n - 1]
    ensures AllowedText(RowText(row, n)) && DigitsOf(RowText(row, n)) == row[..n]
  {
    CellTextDigits(row, n - 1);
    AppendCellDigits(row, n, RowText(row, n - 1), CellText(row, n - 1));
  }

  lemma AppendCellDigits(row: seq<int>, n: int, front: string, cell: string)
    requires 0 < n <= |row|
    requires AllowedText(front) && DigitsOf(front) == row[..n - 1]
    requires AllowedText(cell) && DigitsOf(cell) == [row[n - 1]]
    ensures AllowedText(front + cell) && DigitsOf(front + cell) == row[..n]
  {
    AppendDigits(front, cell);
    assert row[..n] == row[..n - 1] + [row[n - 1]];
  }

  lemma ParseDashStep(ls: seq<string>, rows: seq<seq<int>>)
    requires |ls| > 0 && (ls[0] == Border || ls[0] == Separator)
    ensures ParseFrom(ls, rows) == ParseFrom(ls[1..], rows)
  {
    assert |ls[0]| >= 2 && ls[0][1] == '-';
  }

  lemma ParseContentStep(ls: seq<string>, rows: seq<seq<int>>, row: seq<int>)
    requires |ls| > 0 && |row| == 9 && ls[0] == ContentLine(row) && |rows| < 9
    requires forall j :: 0 <= j < 9 ==> 0 <= row[j] <= 9
    ensures ParseFrom(ls, rows) == ParseFrom(ls[1..], rows + [row])
  {
    var line := ls[0];
    RowTextStart(row, |row|);
    RowTextDigits(row, |row|);
    assert row[..|row|] == row;
    assert AllowedText(line) && DigitsOf(line) == row;
    assert |line| >= 2 && line[1] == ' ';
    ScanRowAccepts(line, []);
    assert ScanRow(line, []) == Row(row);
  }

  /** Cutting the text of str() into lines gives back its 13 lines. */
  lemma LinesOfRender(g: seq<seq<int>>)
    requires IsGrid(g)
    ensures Lines(Render(g)) == RenderLines(g)
  {
    var L := RenderLines(g);
    forall k | 0 <= k < |L| ensures NoBreak(L[k]) {
      assert L[k] == RenderLine(g, k);
      if k != 0 && k != 12 && k != 4 && k != 8 {
        var row := g[k - 1 - k / 4];
        RowTextNoBreak(row, |row|);
      }
    }
    LinesOfJoin(L);
  }

  /**
   * The text of str() has 13 lines: the border first and last, the separator as lines
   * 4 and 8, and the content line of row r as line 1 + r + r / 3.
   */
  lemma RenderLayout(g: seq<seq<int>>)
    requires IsGrid(g)
    ensures |Lines(Render(g))| == 13
    ensures Lines(Render(g))[0] == Border && Lines(Render(g))[12] == Border
    ensures Lines(Render(g))[4] == Separator && Lines(Render(g))[8] == Separator
    ensures forall r :: 0 <= r < 9 ==> Lines(Render(g))[1 + r + r / 3] == ContentLine(g[r])
  {
    LinesOfRender(g);
    FrameLineAt(g, 0);
    FrameLineAt(g, 4);
    FrameLineAt(g, 8);
    FrameLineAt(g, 12);
    forall r | 0 <= r < 9 ensures RenderLines(g)[1 + r + r / 3] == ContentLine(g[r]) {
      var k := 1 + r + r / 3;
      assert r == 0 || r == 1 || r == 2 || r == 3 || r == 4 || r == 5 || r == 6 || r == 7 || r == 8;
      assert 0 < k < 12 && k != 4 && k != 8 && k - 1 - k / 4 == r;
      ContentLineAt(g, k);
    }
  }

  /** Reading the 13 lines of the rendering of a board of digits gives the board back. */
  lemma ParseRenderLines(g: seq<seq<int>>)
    requires IsGrid(g) && forall r, c :: InRange(r, c) ==> 0 <= g[r][c] <= 9
    ensures ParseLines(RenderLines(g)) == Parsed(g)
  {
    RoundTripPrefix(g, 13);
    assert RenderLines(g)[13..] == [];
    assert g[..9] == g;
  }

  /** Parsing the rendering of a board whose cells are all digits gives the board back. */
  lemma RenderParseRoundTrip(g: seq<seq<int>>)
    requires IsGrid(g) && forall r, c :: InRange(r, c) ==> 0 <= g[r][c] <= 9
    ensures ParseLines(Lines(Render(g))) == Parsed(g)
  {
    LinesOfRender(g);
    ParseRenderLines(g);
  }

  lemma SliceExtend(g: seq<seq<int>>, j: int)
    requires 0 <= j < |g|
    ensures g[..j] + [g[j]] == g[..j + 1]
  {
  }

  /** The number of content lines among the first k lines of the rendering. */
  function Band(k: int): int
    requires 0 <= k <= 13
  {
    if k == 0 then 0 else if k <= 4 then k - 1 else if k <= 8 then k - 2 else if k <= 12 then k - 3 else 9
  }

  /** One line of the rendering is read: a border or separator is skipped, a content line adds its row. */
  lemma RoundTripStep(g: seq<seq<int>>, k: int)
    requires IsGrid(g) && forall r, c :: InRange(r, c) ==> 0 <= g[r][c] <= 9
    requires 1 <= k <= 13
    ensures ParseFrom(RenderLines(g)[k - 1..], g[..Band(k - 1)]) == ParseFrom(RenderLines(g)[k..], g[..Band(k)])
  {
    if k == 1 || k == 5 || k == 9 || k == 13 {
      RoundTripFrame(g, k);
    } else {
      RoundTripContent(g, k);
    }
  }

  /** Line k - 1 is a border or a separator: reading it changes nothing. */
  lemma RoundTripFrame(g: seq<seq<int>>, k: int)
    requires IsGrid(g) && (k == 1 || k == 5 || k == 9 || k == 13)
    ensures ParseFrom(RenderLines(g)[k - 1..], g[..Band(k - 1)]) == ParseFrom(RenderLines(g)[k..], g[..Band(k)])
  {
    var L := RenderLines(g);
    var i := k - 1;
    assert Band(i + 1) == Band(i);
    FrameLineAt(g, i);
    SliceCons(L, i);
    ParseDashStep(L[i..], g[..Band(i)]);
  }

  /** Line k - 1 is the content line of row Band(k - 1): reading it adds that row. */
  lemma RoundTripContent(g: seq<seq<int>>, k: int)
    requires IsGrid(g) && forall r, c :: InRange(r, c) ==> 0 <= g[r][c] <= 9
    requires 1 < k < 13 && k != 5 && k != 9
    ensures ParseFrom(RenderLines(g)[k - 1..], g[..Band(k - 1)]) == ParseFrom(RenderLines(g)[k..], g[..Band(k)])
  {
    var L := RenderLines(g);
    var i := k - 1;
    var j := Band(i);
    assert j == i - 1 - i / 4 && Band(i + 1) == j + 1 && j < 9;
    ContentLineAt(g, i);
    SliceCons(L, i);
    ParseContentStep(L[i..], g[..j], g[j]);
    SliceExtend(g, j);
  }

  lemma SliceCons(L: seq<string>, i: int)
    requires 0 <= i < |L|
    ensures |L[i..]| > 0 && L[i..][0] == L[i] && L[i..][1..] == L[i + 1..]
  {
  }

  lemma {:induction false} RoundTripPrefix(g: seq<seq<int>>, k: int)
    requires IsGrid(g) && forall r, c :: InRange(r, c) ==> 0 <= g[r][c] <= 9
    requires 0 <= k <= 13
    ensures ParseFrom(RenderLines(g), []) == ParseFrom(RenderLines(g)[k..], g[..Band(k)])
    decreases k
  {
    if k == 0 {
      assert RenderLines(g)[0..] == RenderLines(g);
    } else {
      RoundTripPrefix(g, k - 1);
      RoundTripStep(g, k);
    }
  }
}
