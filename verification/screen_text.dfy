/** What printing means: each kind of character, and whole texts. Stated about the log that never scrolls, and
    through it about the screen. */
module ScreenText {
  import opened Word
  import opened Screens

  // ---------------------------------------------------------------- one character

  /** An empty row in the current colours. */
  function EmptyRow(attrib: u8): Row { seq(80, _ => 0x20 + 0x100 * attrib) }

  /** The start of the next row, which is an empty one if there was none. */
  function NextRow(log: Log): Log
    requires log.Valid()
  {
    Log(if log.y + 1 == |log.rows| then log.rows + [EmptyRow(log.attrib)] else log.rows, 0, log.y + 1, log.attrib)
  }

  /** Row `row` with the characters of `line` from column `x` on. */
  function Overlay(row: Row, x: nat, line: seq<s8>, attrib: u8): (r: Row)
    requires |row| == 80 && x + |line| <= 80 && Printables(line)
    ensures |r| == 80
  {
    seq(80, j requires 0 <= j < 80 => if x <= j < x + |line| then line[j - x] + 0x100 * attrib else row[j])
  }

  predicate Printables(s: seq<s8>) {
    forall i :: 0 <= i < |s| ==> s[i] >= 32
  }

  /** The log with `line` written into the row of the cursor; the cursor stays. */
  function Written(log: Log, line: seq<s8>): (log': Log)
    requires log.Valid() && log.x + |line| <= 80 && Printables(line)
    ensures log'.Valid()
  {
    log.(rows := log.rows[log.y := Overlay(log.rows[log.y], log.x, line, log.attrib)])
  }

  /** What each character does. Code 8 is backspace, 9 tab, 10 newline, 13 carriage return. */
  lemma PutMeans(log: Log, c: s8)
    requires log.Valid()
    ensures c == 8 ==> LogPut(log, c) == log.(x := if log.x == 0 then 0 else log.x - 1)
    ensures var stop := 8 * (log.x / 8 + 1);
            c == 9 ==> LogPut(log, c) == if stop < 80 then log.(x := stop) else NextRow(log)
    ensures c == 10 ==> LogPut(log, c) == NextRow(log)
    ensures c == 13 ==> LogPut(log, c) == log.(x := 0)
    ensures c < 32 && c !in [8, 9, 10, 13] ==> LogPut(log, c) == log
    ensures c >= 32 ==>
              LogPut(log, c) == if log.x + 1 < 80 then Written(log, [c]).(x := log.x + 1)
                                else NextRow(Written(log, [c]))
  {
    assert NextRow(log).rows == log.rows || NextRow(log).rows == log.rows + [seq(WIDTH, _ => Blank(log.attrib))];
    if c >= 32 {
      WrittenOne(log, c);
      var log1 := Written(log, [c]);
      assert NextRow(log1).rows == log1.rows || NextRow(log1).rows == log1.rows + [seq(WIDTH, _ => Blank(log.attrib))];
    }
  }

  lemma WrittenOne(log: Log, c: s8)
    requires log.Valid() && c >= 32
    ensures SetCell(log.rows, log.y, log.x, Cell(c, log.attrib)) == Written(log, [c]).rows
  {
    var row := log.rows[log.y];
    assert Overlay(row, log.x, [c], log.attrib) == row[log.x := Cell(c, log.attrib)];
  }

  /** A cell holds the character in its low byte, the foreground in the next four bits, the background above. */
  lemma PrintedCell(log: Log, c: s8, foreground: u8, background: u8)
    requires log.Valid() && c >= 32
    ensures var log' := LogPut(log.(attrib := Colours(foreground, background)), c);
            && log.y < |log'.rows| && log.x < |log'.rows[log.y]|
            && var w := log'.rows[log.y][log.x];
               w % 0x100 == c && w / 0x100 % 16 == foreground % 16 && w / 0x1000 == background % 16
  {
    var coloured := log.(attrib := Colours(foreground, background));
    PutMeans(coloured, c);
    assert Written(coloured, [c]).rows[log.y][log.x] == c + 0x100 * coloured.attrib;
    CellBytes(c, foreground % 16, background % 16);
  }

  lemma CellBytes(c: s8, f: nat, b: nat)
    requires c >= 0 && f < 16 && b < 16
    ensures var w := c + 0x100 * (b * 16 + f); w % 0x100 == c && w / 0x100 % 16 == f && w / 0x1000 == b
  {
    var w := c + 0x100 * (b * 16 + f);
    assert w / 0x100 == b * 16 + f;
    assert w == 0x1000 * b + (0x100 * f + c) && 0x100 * f + c < 0x1000;
  }
  // ---------------------------------------------------------------- texts

  /** Printing the characters of `s`. */
  function Printed(log: Log, s: seq<s8>): (log': Log)
    requires log.Valid()
    ensures log'.Valid()
    decreases |s|
  {
    if s == [] then log else PutCommutes(log, s[0]); Printed(LogPut(log, s[0]), s[1..])
  }

  function Characters(s: seq<s8>): seq<Event> {
    seq(|s|, i requires 0 <= i < |s| => Character(s[i]))
  }

  /** That is what the events of a run do. */
  lemma {:induction false} PrintedIsLogged(log: Log, s: seq<s8>)
    requires log.Valid()
    ensures Printed(log, s) == Logged(log, Characters(s))
    decreases |s|
  {
    if s == [] {
    } else {
      PutCommutes(log, s[0]);
      PrintedIsLogged(LogPut(log, s[0]), s[1..]);
      assert Characters(s)[1..] == Characters(s[1..]);
    }
  }

  lemma {:induction false} PrintedOneAfterOther(log: Log, a: seq<s8>, b: seq<s8>)
    requires log.Valid()
    ensures Printed(log, a + b) == Printed(Printed(log, a), b)
    decreases |a|
  {
    if a == [] {
      assert a + b == b;
    } else {
      PutCommutes(log, a[0]);
      PrintedOneAfterOther(LogPut(log, a[0]), a[1..], b);
      assert (a + b)[1..] == a[1..] + b;
    }
  }

  /** Backspace, space, backspace takes a character back exactly if that was not printed in the last column. */
  lemma EraseTakesBackExactly(log: Log, c: s8)
    requires log.Valid() && c >= 32
    ensures Printed(log, [c, 8, 32, 8]) == Written(log, [32]) <==> log.x < 79
  {
    if log.x < 79 {
      Erased(log, c);
    } else {
      NotErased(log, c);
    }
  }

  lemma Erased(log: Log, c: s8)
    requires log.Valid() && c >= 32 && log.x < 79
    ensures Printed(log, [c, 8, 32, 8]) == Written(log, [32])
  {
    FourCharacters(log, c, 8, 32, 8);
    PrintedAndBack(log, c);
    PrintedAndBack(Written(log, [c]), 32);
    WrittenAgain(log, [c], [32]);
  }

  /** A character, then backspace. */
  lemma PrintedAndBack(log: Log, c: s8)
    requires log.Valid() && c >= 32 && log.x < 79
    ensures LogPut(log, c).Valid() && LogPut(LogPut(log, c), 8) == Written(log, [c])
  {
    PutMeans(log, c);
    var log1 := Written(log, [c]);
    PutMeans(log1.(x := log.x + 1), 8);
    assert log1.(x := log.x + 1).(x := log.x) == log1;
  }

  lemma WrittenAgain(log: Log, a: seq<s8>, b: seq<s8>)
    requires log.Valid() && |a| == |b| && log.x + |a| <= 80 && Printables(a) && Printables(b)
    ensures Written(Written(log, a), b) == Written(log, b)
  {
    var row := log.rows[log.y];
    assert Overlay(Overlay(row, log.x, a, log.attrib), log.x, b, log.attrib) == Overlay(row, log.x, b, log.attrib);
    assert Written(Written(log, a), b).rows == Written(log, b).rows;
  }

  lemma NotErased(log: Log, c: s8)
    requires log.Valid() && c >= 32 && log.x == 79
    ensures Printed(log, [c, 8, 32, 8]).y == log.y + 1
  {
    FourCharacters(log, c, 8, 32, 8);
    PutMeans(log, c);
    var log1 := NextRow(Written(log, [c]));
    PutMeans(log1, 8);
    PutMeans(log1, 32);
    PutMeans(Written(log1, [32]).(x := 1), 8);
  }

  lemma FourCharacters(log: Log, a: s8, b: s8, c: s8, d: s8)
    requires log.Valid()
    ensures LogPut(log, a).Valid() && LogPut(LogPut(log, a), b).Valid() && LogPut(LogPut(LogPut(log, a), b), c).Valid()
    ensures Printed(log, [a, b, c, d]) == LogPut(LogPut(LogPut(LogPut(log, a), b), c), d)
  {
    PutCommutes(log, a);
    PutCommutes(LogPut(log, a), b);
    PutCommutes(LogPut(LogPut(log, a), b), c);
    PrintedOneAfterOther(log, [a], [b, c, d]);
    PrintedOneAfterOther(LogPut(log, a), [b], [c, d]);
    PrintedOneAfterOther(LogPut(LogPut(log, a), b), [c], [d]);
    assert [a, b, c, d] == [a] + [b, c, d] && [b, c, d] == [b] + [c, d] && [c, d] == [c] + [d];
  }

  /** A line that fits the row is written into it; one that fills it moves on to the next row. */
  lemma {:induction false} LineIsWritten(log: Log, line: seq<s8>)
    requires log.Valid() && Printables(line) && log.x + |line| <= 80
    ensures Printed(log, line) == if log.x + |line| < 80 then Written(log, line).(x := log.x + |line|)
                                  else NextRow(Written(log, line))
    decreases |line|
  {
    if line == [] {
      assert Overlay(log.rows[log.y], log.x, [], log.attrib) == log.rows[log.y];
    } else {
      var log1 := LogPut(log, line[0]);
      PutMeans(log, line[0]);
      PutCommutes(log, line[0]);
      if |line| == 1 {
        assert line == [line[0]] && Printed(log1, line[1..]) == log1;
      } else {
        LineIsWritten(log1, line[1..]);
        WrittenOnward(log, line);
      }
    }
  }

  lemma WrittenOnward(log: Log, line: seq<s8>)
    requires log.Valid() && Printables(line) && log.x + |line| <= 80 && |line| >= 2
    ensures var log1 := Written(log, [line[0]]).(x := log.x + 1);
            Written(log1, line[1..]) == Written(log, line).(x := log.x + 1)
  {
    var log1 := Written(log, [line[0]]).(x := log.x + 1);
    var row := log.rows[log.y];
    assert Overlay(Overlay(row, log.x, [line[0]], log.attrib), log.x + 1, line[1..], log.attrib)
        == Overlay(row, log.x, line, log.attrib);
    assert Written(log1, line[1..]).rows == Written(log, line).rows;
  }

  /** Where the first row of a text ends: at a newline, after 80 characters, or with the text. */
  function RowEnd(text: seq<s8>): (p: nat)
    ensures p <= |text| && p <= 80 && (p < |text| && p < 80 ==> text[p] == 10)
    ensures forall i :: 0 <= i < p ==> text[i] != 10
  {
    RowEndFrom(text, 0)
  }

  function RowEndFrom(text: seq<s8>, i: nat): (p: nat)
    requires i <= |text| && i <= 80
    ensures i <= p <= |text| && p <= 80 && (p < |text| && p < 80 ==> text[p] == 10)
    ensures forall k :: i <= k < p ==> text[k] != 10
    decreases |text| - i
  {
    if i == |text| || i == 80 || text[i] == 10 then i else RowEndFrom(text, i + 1)
  }

  /** The rows a text takes: cut at every newline, which belongs to no row, and after every 80 characters. */
  function RowsOf(text: seq<s8>): (rows: seq<seq<s8>>)
    requires PlainText(text)
    ensures |rows| >= 1 && forall i :: 0 <= i < |rows| ==> |rows[i]| <= 80 && Printables(rows[i])
    decreases |text|
  {
    var p := RowEnd(text);
    if p < 80 && p == |text| then [text]
    else [text[..p]] + RowsOf(text[if p < 80 then p + 1 else p..])
  }

  /** Printable characters and newlines. */
  predicate PlainText(text: seq<s8>) {
    forall i :: 0 <= i < |text| ==> text[i] >= 32 || text[i] == 10
  }

  /** Row `k` of the log, or the empty row that will be there. */
  function RowAt(log: Log, k: nat): (r: Row)
    requires log.Valid()
    ensures |r| == 80
  {
    if k < |log.rows| then log.rows[k] else EmptyRow(log.attrib)
  }

  /** `log'` is `log` with the rows `text` laid over its own from the cursor's row on, and the cursor behind the
      last. */
  ghost predicate LaidOver(log: Log, text: seq<seq<s8>>, log': Log)
    requires log.Valid() && |text| >= 1 && forall i :: 0 <= i < |text| ==> |text[i]| <= 80 && Printables(text[i])
  {
    && log'.attrib == log.attrib && log'.y == log.y + |text| - 1 && log'.x == |text[|text| - 1]|
    && |log'.rows| == Max(|log.rows|, log.y + |text|)
    && forall k: nat :: k < |log'.rows| ==> log'.rows[k] == LaidRow(log, text, k)
  }

  function LaidRow(log: Log, text: seq<seq<s8>>, k: nat): Row
    requires log.Valid() && forall i :: 0 <= i < |text| ==> |text[i]| <= 80 && Printables(text[i])
  {
    if log.y <= k < log.y + |text| then Overlay(RowAt(log, k), 0, text[k - log.y], log.attrib) else RowAt(log, k)
  }

  lemma FirstRowLaid(log: Log, line: seq<s8>, rest: seq<seq<s8>>, log': Log)
    requires log.Valid() && log.x == 0 && |line| <= 80 && Printables(line)
    requires |rest| >= 1 && forall i :: 0 <= i < |rest| ==> |rest[i]| <= 80 && Printables(rest[i])
    requires NextRow(Written(log, line)).Valid() && LaidOver(NextRow(Written(log, line)), rest, log')
    ensures LaidOver(log, [line] + rest, log')
  {
    var next := NextRow(Written(log, line));
    forall k: nat | k < |log'.rows|
      ensures log'.rows[k] == LaidRow(log, [line] + rest, k)
    {
      assert log'.rows[k] == LaidRow(next, rest, k);
    }
  }

  lemma NextRowIsValid(log: Log)
    requires log.Valid()
    ensures NextRow(log).Valid()
  {
  }

  /** The rest of a text behind its first row. */
  function Behind(text: seq<s8>): (rest: seq<s8>)
    requires PlainText(text) && !(RowEnd(text) < 80 && RowEnd(text) == |text|)
    ensures PlainText(rest) && |rest| < |text|
    ensures RowsOf(text) == [text[..RowEnd(text)]] + RowsOf(rest)
  {
    text[if RowEnd(text) < 80 then RowEnd(text) + 1 else RowEnd(text)..]
  }

  lemma TextSplit(text: seq<s8>)
    requires PlainText(text) && !(RowEnd(text) < 80 && RowEnd(text) == |text|)
    ensures Printables(text[..RowEnd(text)])
    ensures text == text[..RowEnd(text)] + if RowEnd(text) < 80 then [10] + Behind(text) else Behind(text)
  {
    var p := RowEnd(text);
    assert p < 80 ==> text[p..] == [10] + text[p + 1..];
  }

  lemma FirstRowPrinted(log: Log, text: seq<s8>)
    requires log.Valid() && log.x == 0 && PlainText(text) && !(RowEnd(text) < 80 && RowEnd(text) == |text|)
    ensures Printables(text[..RowEnd(text)]) && NextRow(Written(log, text[..RowEnd(text)])).Valid()
    ensures Printed(log, text) == Printed(NextRow(Written(log, text[..RowEnd(text)])), Behind(text))
  {
    var line, rest := text[..RowEnd(text)], Behind(text);
    NextRowIsValid(Written(log, line));
    TextSplit(text);
    if RowEnd(text) < 80 {
      RowThenNewline(log, line, rest);
    } else {
      FullRowThenRest(log, line, rest);
    }
  }

  lemma LastRowLaid(log: Log, text: seq<s8>)
    requires log.Valid() && log.x == 0 && PlainText(text) && RowEnd(text) < 80 && RowEnd(text) == |text|
    ensures LaidOver(log, RowsOf(text), Printed(log, text))
  {
    LineIsWritten(log, text);
    assert text[..RowEnd(text)] == text;
  }

  /** Printing a text of printable characters and newlines from the start of a row lays its rows, cut at every
      newline and after every 80 characters, over the rows of the log. */
  lemma {:induction false} TextIsLaidOver(log: Log, text: seq<s8>)
    requires log.Valid() && log.x == 0 && PlainText(text)
    ensures LaidOver(log, RowsOf(text), Printed(log, text))
    decreases |text|
  {
    if RowEnd(text) < 80 && RowEnd(text) == |text| {
      LastRowLaid(log, text);
    } else {
      var line, rest := text[..RowEnd(text)], Behind(text);
      FirstRowPrinted(log, text);
      var next := NextRow(Written(log, line));
      TextIsLaidOver(next, rest);
      FirstRowLaid(log, line, RowsOf(rest), Printed(next, rest));
    }
  }

  lemma RowThenNewline(log: Log, line: seq<s8>, rest: seq<s8>)
    requires log.Valid() && log.x == 0 && |line| < 80 && Printables(line)
    ensures NextRow(Written(log, line)).Valid()
    ensures Printed(log, line + ([10] + rest)) == Printed(NextRow(Written(log, line)), rest)
  {
    LineIsWritten(log, line);
    PrintedOneAfterOther(log, line, [10] + rest);
    NewlineFirst(Written(log, line).(x := |line|), [10] + rest);
    assert ([10] + rest)[1..] == rest;
  }

  lemma FullRowThenRest(log: Log, line: seq<s8>, rest: seq<s8>)
    requires log.Valid() && log.x == 0 && |line| == 80 && Printables(line)
    ensures NextRow(Written(log, line)).Valid()
    ensures Printed(log, line + rest) == Printed(NextRow(Written(log, line)), rest)
  {
    LineIsWritten(log, line);
    PrintedOneAfterOther(log, line, rest);
  }

  lemma NewlineFirst(log: Log, text: seq<s8>)
    requires log.Valid() && text != [] && text[0] == 10
    ensures NextRow(log).Valid() && Printed(log, text) == Printed(NextRow(log), text[1..])
  {
    NextRowIsValid(log);
    PutMeans(log, 10);
  }

  /** The same of the screen: it shows the last 25 rows of that log. */
  lemma ScreenShowsText(st: Screens.State, text: seq<s8>)
    requires st.Valid() && st.x == 0 && PlainText(text)
    ensures LaidOver(Initial(st), RowsOf(text), Printed(Initial(st), text))
    ensures Shown(st, Characters(text)) == Window(Printed(Initial(st), text))
  {
    TextIsLaidOver(Initial(st), text);
    PrintedIsLogged(Initial(st), text);
    ScreenFromAnyStart(st, Characters(text));
  }
}
