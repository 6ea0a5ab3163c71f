/** Row and column of a position in the text: Stamp, called again and again as the parser moves on. */
module XmlCursor {
  import N = XmlNewlines

  /** The cursor and the position it was computed for. */
  datatype Place = Place(row: int, col: int, at: nat)

  /** Integer division as in C, toward zero. */
  function DivC(a: int, b: int): int
    requires b > 0
  {
    if a >= 0 then a / b else -(-a / b)
  }

  /** One turn of the loop, in byte encoding; a line break of two characters is taken whole. */
  function Advance(s: string, tabsize: int, p: Place): (r: Place)
    requires p.at < |s| && tabsize >= 1
    ensures p.at < r.at <= |s|
  {
    var two := p.at + 1 < |s|;
    if s[p.at] == '\r' then
      Place(p.row + 1, 0, if two && s[p.at + 1] == '\n' then p.at + 2 else p.at + 1)
    else if s[p.at] == '\n' then
      Place(p.row + 1, 0, if two && s[p.at + 1] == '\r' then p.at + 2 else p.at + 1)
    else if s[p.at] == '\t' then Place(p.row, (DivC(p.col, tabsize) + 1) * tabsize, p.at + 1)
    else Place(p.row, p.col + 1, p.at + 1)
  }

  /** From p on until now is reached. */
  function Walk(s: string, tabsize: int, p: Place, now: nat): (r: Place)
    requires now <= |s| && p.at <= |s| && tabsize >= 1
    ensures now <= r.at <= |s| || r == p
    ensures r.at <= |s| && p.at <= r.at
    decreases |s| - p.at
  {
    if p.at < now then Walk(s, tabsize, Advance(s, tabsize, p), now) else p
  }

  /** The parsing data of a document; the text ends at its terminator. */
  class ParsingData {
    const s: string
    const tabsize: int
    var row: int
    var col: int
    var stamp: nat

    constructor (text: string, tabs: int, r: int, c: int)
      ensures s == text && tabsize == tabs && Here() == Place(r, c, 0)
    {
      s, tabsize, row, col, stamp := text, tabs, r, c, 0;
    }

    function Here(): Place
      reads this
    {
      Place(row, col, stamp)
    }

    /** Stamp in byte encoding; a position behind the terminator is never reached and changes nothing. */
    method Stamp(now: nat)
      requires stamp <= |s|
      modifies this
      ensures Here() == if tabsize < 1 || now > |s| then old(Here()) else Walk(s, tabsize, old(Here()), now)
      ensures stamp <= |s|
    {
      hide Walk, Advance;
      if tabsize < 1 {
        return;
      }
      var r, c, p := row, col, stamp;
      while p < now
        invariant p <= |s| && Here() == old(Here())
        invariant now <= |s| ==> Walk(s, tabsize, old(Here()), now) == Walk(s, tabsize, Place(r, c, p), now)
        decreases |s| - p
      {
        if p == |s| {
          return;
        }
        if now <= |s| {
          WalkStep(s, tabsize, Place(r, c, p), now);
        }
        r, c, p := OneStep(r, c, p);
      }
      WalkEnd(s, tabsize, Place(r, c, p), now);
      row := r;
      col := c;
      stamp := p;
    }

    method OneStep(row0: int, col0: int, p0: nat) returns (r: int, c: int, p: nat)
      requires p0 < |s| && tabsize >= 1
      ensures Place(r, c, p) == Advance(s, tabsize, Place(row0, col0, p0))
    {
      r, c, p := row0, col0, p0;
      match s[p] {
        case '\r' =>
          r := r + 1;
          c := 0;
          p := p + 1;
          if p < |s| && s[p] == '\n' {
            p := p + 1;
          }
        case '\n' =>
          r := r + 1;
          c := 0;
          p := p + 1;
          if p < |s| && s[p] == '\r' {
            p := p + 1;
          }
        case '\t' =>
          p := p + 1;
          c := (DivC(c, tabsize) + 1) * tabsize;
        case _ =>
          p := p + 1;
          c := c + 1;
      }
    }

    /** A series of calls, one for each position. */
    method StampAll(nows: seq<nat>)
      requires stamp <= |s| && Monotone(nows, |s|) && nows != [] && tabsize >= 1
      modifies this
      ensures Here() == Walk(s, tabsize, old(Here()), nows[|nows| - 1])
    {
      hide Walk;
      for i := 0 to |nows|
        invariant stamp <= |s|
        invariant i == 0 ==> Here() == old(Here())
        invariant i > 0 ==> Here() == Walk(s, tabsize, old(Here()), nows[i - 1])
      {
        if i > 0 {
          WalkOn(s, tabsize, old(Here()), nows[i - 1], nows[i]);
        }
        Stamp(nows[i]);
      }
    }
  }

  lemma WalkStep(s: string, tabsize: int, p: Place, now: nat)
    requires p.at < now <= |s| && tabsize >= 1
    ensures Walk(s, tabsize, p, now) == Walk(s, tabsize, Advance(s, tabsize, p), now)
  {
  }

  lemma WalkEnd(s: string, tabsize: int, p: Place, now: nat)
    requires now <= p.at <= |s| && now <= |s| && tabsize >= 1
    ensures Walk(s, tabsize, p, now) == p
  {
  }

  predicate Monotone(nows: seq<nat>, end: nat) {
    forall i :: 0 <= i < |nows| ==> nows[i] <= end && (i > 0 ==> nows[i - 1] <= nows[i])
  }

  /** Going on from where a walk stopped is one walk. */
  lemma {:induction false} WalkOn(s: string, tabsize: int, p: Place, mid: nat, now: nat)
    requires mid <= now <= |s| && p.at <= |s| && tabsize >= 1
    ensures Walk(s, tabsize, Walk(s, tabsize, p, mid), now) == Walk(s, tabsize, p, now)
    decreases |s| - p.at
  {
    if p.at >= mid {
    } else {
      WalkOn(s, tabsize, Advance(s, tabsize, p), mid, now);
    }
  }

  function CountLines(s: string): nat {
    if s == "" then 0 else (if s[0] == '\n' then 1 else 0) + CountLines(s[1..])
  }

  /** On a normalized text a walk stops exactly where it should, and the row grows by one with every LF. */
  lemma {:induction false} RowsAreLines(s: string, tabsize: int, p: Place, now: nat)
    requires '\r' !in s && p.at <= now <= |s| && tabsize >= 1
    ensures Walk(s, tabsize, p, now).at == now
    ensures Walk(s, tabsize, p, now).row == p.row + CountLines(s[p.at..now])
    decreases |s| - p.at
  {
    if p.at >= now {
    } else {
      RowsAreLines(s, tabsize, Advance(s, tabsize, p), now);
      assert s[p.at..now][1..] == s[p.at + 1..now];
    }
  }

  /** The column depends on the last line only. */
  lemma {:induction false} ColumnRestarts(s: string, tabsize: int, p: Place, now: nat, k: nat)
    requires '\r' !in s && p.at <= k < now <= |s| && tabsize >= 1 && s[k] == '\n'
    ensures Walk(s, tabsize, p, now).col == Walk(s, tabsize, Place(0, 0, k + 1), now).col
    decreases |s| - p.at
  {
    if p.at < k {
      ColumnRestarts(s, tabsize, Advance(s, tabsize, p), now, k);
    } else {
      ColumnIgnoresRow(s, tabsize, Advance(s, tabsize, p), Place(0, 0, k + 1), now);
    }
  }

  lemma {:induction false} ColumnIgnoresRow(s: string, tabsize: int, p: Place, q: Place, now: nat)
    requires now <= |s| && p.at == q.at <= |s| && p.col == q.col && tabsize >= 1
    ensures Walk(s, tabsize, p, now).col == Walk(s, tabsize, q, now).col
    decreases |s| - p.at
  {
    if p.at >= now {
    } else {
      ColumnIgnoresRow(s, tabsize, Advance(s, tabsize, p), Advance(s, tabsize, q), now);
    }
  }

  /** After the newline pass, any monotone series of positions ends in the row one pass counts. */
  lemma LoadedTextRows(raw: string, tabsize: int, now: nat)
    requires now <= |N.Normalize(raw)| && tabsize >= 1
    ensures Walk(N.Normalize(raw), tabsize, Place(0, 0, 0), now).row == CountLines(N.Normalize(raw)[..now])
  {
    N.NoCarriageReturn(raw);
    RowsAreLines(N.Normalize(raw), tabsize, Place(0, 0, 0), now);
    assert N.Normalize(raw)[0..now] == N.Normalize(raw)[..now];
  }

  // ---------- Columns ----------

  predicate Breakless(s: string) {
    '\r' !in s && '\n' !in s
  }

  /** Without tabs and line breaks every character moves the column by one. */
  lemma {:induction false} PlainColumn(s: string, tabsize: int, p: Place, now: nat)
    requires p.at <= now <= |s| && tabsize >= 1 && Breakless(s[p.at..now]) && '\t' !in s[p.at..now]
    ensures Walk(s, tabsize, p, now) == Place(p.row, p.col + (now - p.at), now)
    decreases |s| - p.at
  {
    if p.at == now {
    } else {
      assert s[p.at] == s[p.at..now][0];
      assert s[p.at + 1..now] == s[p.at..now][1..];
      PlainColumn(s, tabsize, Advance(s, tabsize, p), now);
    }
  }

  /** A tab leads to the least multiple of the tab size above the column. */
  lemma TabColumn(s: string, tabsize: int, p: Place)
    requires p.at < |s| && s[p.at] == '\t' && p.col >= 0 && tabsize >= 1
    ensures var q := Advance(s, tabsize, p);
            && q.row == p.row && q.at == p.at + 1
            && q.col % tabsize == 0 && p.col < q.col <= p.col + tabsize
            && forall c :: c % tabsize == 0 && c > p.col ==> q.col <= c
  {
    var k := p.col / tabsize;
    var stop := (k + 1) * tabsize;
    assert stop == k * tabsize + tabsize;
    StopIsMultiple(k + 1, tabsize);
    forall c | c % tabsize == 0 && c > p.col
      ensures stop <= c
    {
      var m := c / tabsize;
      assert c == m * tabsize;
      if m <= k {
        AtMost(m, k, tabsize);
        assert false;
      }
      AtMost(k + 1, m, tabsize);
    }
  }

  lemma StopIsMultiple(k: nat, tabsize: int)
    requires tabsize >= 1
    ensures k * tabsize % tabsize == 0
  {
    var stop := k * tabsize;
    var q, r := stop / tabsize, stop % tabsize;
    Difference(k, q, tabsize, r);
  }

  lemma Difference(k: int, q: int, tabsize: int, r: int)
    requires k * tabsize == q * tabsize + r && 0 <= r < tabsize
    ensures r == 0
  {
    var d := k - q;
    assert d * tabsize == r;
    if d >= 1 {
      AtMost(1, d, tabsize);
      assert false;
    } else if d <= -1 {
      AtMost(d, -1, tabsize);
      assert false;
    }
  }

  lemma AtMost(a: int, b: int, tabsize: int)
    requires a <= b && tabsize >= 1
    ensures a * tabsize <= b * tabsize
  {
  }

  function Spaces(n: nat): (r: string)
    ensures |r| == n
  {
    seq(n, _ => ' ')
  }

  /** The line with each tab filled up with spaces to the next tab stop. */
  function Expanded(line: string, tabsize: nat): string
    requires tabsize >= 1
  {
    if line == "" then ""
    else
      var front := Expanded(line[..|line| - 1], tabsize);
      var c := line[|line| - 1];
      if c == '\t' then front + Spaces(tabsize - |front| % tabsize) else front + [c]
  }

  /** In a line the column is the width of what stands in front, tabs expanded. */
  lemma {:induction false} ColumnIsWidth(s: string, tabsize: nat, row: int, from: nat, now: nat)
    requires from <= now <= |s| && tabsize >= 1 && Breakless(s[from..now])
    ensures Walk(s, tabsize, Place(row, 0, from), now) == Place(row, |Expanded(s[from..now], tabsize)|, now)
    decreases now - from
  {
    hide Advance;
    var start := Place(row, 0, from);
    if from == now {
      WalkEnd(s, tabsize, start, now);
    } else {
      var line, k := s[from..now], now - 1;
      assert line[..|line| - 1] == s[from..k] && line[|line| - 1] == s[k] && s[k] in line;
      ColumnIsWidth(s, tabsize, row, from, k);
      var p := Walk(s, tabsize, start, k);
      WalkOn(s, tabsize, start, k, now);
      WalkStep(s, tabsize, p, now);
      var width := |Expanded(s[from..k], tabsize)|;
      LastCharacter(s, tabsize, p);
      WalkEnd(s, tabsize, Advance(s, tabsize, p), now);
    }
  }

  lemma LastCharacter(s: string, tabsize: nat, p: Place)
    requires p.at < |s| && s[p.at] != '\r' && s[p.at] != '\n' && p.col >= 0 && tabsize >= 1
    ensures Advance(s, tabsize, p)
         == Place(p.row, if s[p.at] == '\t' then p.col + (tabsize - p.col % tabsize) else p.col + 1, p.at + 1)
  {
    if s[p.at] == '\t' {
      var k, r := p.col / tabsize, p.col % tabsize;
      assert p.col == k * tabsize + r;
      assert (k + 1) * tabsize == k * tabsize + tabsize;
    }
  }

  // ---------- Line breaks of every kind ----------

  function Joined(lines: seq<string>, br: string): string {
    if lines == [] then "" else if |lines| == 1 then lines[0] else lines[0] + (br + Joined(lines[1..], br))
  }

  predicate IsBreak(br: string) {
    br in {"\n", "\r", "\r\n", "\n\r"}
  }

  /** Where line i starts. */
  function LineStart(lines: seq<string>, br: string, i: nat): nat
    requires i < |lines|
  {
    if i == 0 then 0 else |lines[0]| + |br| + LineStart(lines[1..], br, i - 1)
  }

  lemma {:induction false} LineInText(lines: seq<string>, br: string, i: nat)
    requires i < |lines|
    ensures LineStart(lines, br, i) + |lines[i]| <= |Joined(lines, br)|
    decreases i
  {
    if i == 0 {
    } else {
      LineInText(lines[1..], br, i - 1);
    }
  }

  /** A line break, one or two characters long, starts the next row. */
  lemma BreakStartsRow(s: string, tabsize: nat, p: Place, br: string)
    requires IsBreak(br) && tabsize >= 1 && p.at + |br| <= |s| && s[p.at..p.at + |br|] == br
    requires |br| == 1 && p.at + 1 < |s| ==> s[p.at + 1] == br[0] || s[p.at + 1] !in {'\r', '\n'}
    ensures Advance(s, tabsize, p) == Place(p.row + 1, 0, p.at + |br|)
  {
    assert s[p.at] == s[p.at..p.at + |br|][0];
    assert |br| == 2 ==> s[p.at + 1] == s[p.at..p.at + |br|][1];
  }

  lemma FirstLine(head: string, line: string, br: string, more: string, tabsize: nat, row: int)
    requires tabsize >= 1 && IsBreak(br) && Breakless(line)
    requires more != "" ==> more[0] == br[0] || more[0] !in {'\r', '\n'}
    ensures var s, next := head + (line + (br + more)), |head| + |line| + |br|;
            && s == (head + (line + br)) + more && next <= |s|
            && Walk(s, tabsize, Place(row, 0, |head|), next) == Place(row + 1, 0, next)
  {
    hide Walk, IsBreak, Breakless;
    LineSplit(head, line, br, more);
    LineThenBreak(head + (line + (br + more)), tabsize, row, |head|, line, br, more);
  }

  lemma StartsWithLine(head: string, lines: seq<string>, br: string, j: nat)
    requires lines != [] && j <= |lines[0]|
    ensures var s := head + Joined(lines, br); |head| + j <= |s| && s[|head|..|head| + j] == lines[0][..j]
  {
  }

  lemma LineSplit(head: string, line: string, br: string, more: string)
    ensures var s, from := head + (line + (br + more)), |head|;
            && s == (head + (line + br)) + more
            && s[from..from + |line|] == line && s[from + |line|..from + |line| + |br|] == br
            && s[from + |line| + |br|..] == more
  {
  }

  /** A line and the break behind it. */
  lemma LineThenBreak(s: string, tabsize: nat, row: int, from: nat, line: string, br: string, more: string)
    requires tabsize >= 1 && IsBreak(br) && Breakless(line) && from + |line| + |br| <= |s|
    requires s[from..from + |line|] == line && s[from + |line|..from + |line| + |br|] == br
    requires s[from + |line| + |br|..] == more
    requires more != "" ==> more[0] == br[0] || more[0] !in {'\r', '\n'}
    ensures var now := from + |line| + |br|; Walk(s, tabsize, Place(row, 0, from), now) == Place(row + 1, 0, now)
  {
    hide Walk, Advance, IsBreak;
    BreakLength(br);
    var mid, now := from + |line|, from + |line| + |br|;
    var p := Place(row, |Expanded(line, tabsize)|, mid);
    ColumnIsWidth(s, tabsize, row, from, mid);
    assert now < |s| ==> s[now] == more[0];
    BreakStartsRow(s, tabsize, p, br);
    WalkOn(s, tabsize, Place(row, 0, from), mid, now);
    WalkStep(s, tabsize, p, now);
    WalkEnd(s, tabsize, Place(row + 1, 0, now), now);
  }

  /**
    Of a text with line breaks of one kind, whichever, the row of a position is the number of its line and the column
    the width of the line in front of it.
   */
  lemma {:induction false} RowAndColumn(head: string, lines: seq<string>, br: string, tabsize: nat, row: int, i: nat, j: nat)
    requires IsBreak(br) && tabsize >= 1 && i < |lines| && j <= |lines[i]|
    requires forall k :: 0 <= k < |lines| ==> Breakless(lines[k])
    ensures var s, now := head + Joined(lines, br), |head| + LineStart(lines, br, i) + j;
            && now <= |s|
            && Walk(s, tabsize, Place(row, 0, |head|), now) == Place(row + i, |Expanded(lines[i][..j], tabsize)|, now)
    decreases i
  {
    hide Walk, Advance, IsBreak, Expanded, Breakless;
    LineInText(lines, br, i);
    var s, from := head + Joined(lines, br), |head|;
    var line := lines[0];
    assert Breakless(line);
    if i == 0 {
      StartsWithLine(head, lines, br, j);
      SubLine(line, j);
      ColumnIsWidth(s, tabsize, row, from, from + j);
    } else {
      var more := Joined(lines[1..], br);
      var next, now := from + |line| + |br|, from + LineStart(lines, br, i) + j;
      assert Joined(lines, br) == line + (br + more);
      assert LineStart(lines, br, i) == |line| + |br| + LineStart(lines[1..], br, i - 1);
      hide Joined, LineStart;
      assert forall k :: 0 <= k < |lines[1..]| ==> lines[1..][k] == lines[k + 1];
      NextLineStarts(lines[1..], br);
      FirstLine(head, line, br, more, tabsize, row);
      RowAndColumn(head + (line + br), lines[1..], br, tabsize, row + 1, i - 1, j);
      assert |head + (line + br)| == next && lines[1..][i - 1] == lines[i];
      var there := Place(row + i, |Expanded(lines[i][..j], tabsize)|, now);
      assert Walk(s, tabsize, Place(row + 1, 0, next), now) == there;
      WalkOn(s, tabsize, Place(row, 0, from), next, now);
    }
  }

  lemma BreakLength(br: string)
    requires IsBreak(br)
    ensures 1 <= |br| <= 2
  {
  }

  lemma SubLine(line: string, j: nat)
    requires Breakless(line) && j <= |line|
    ensures Breakless(line[..j])
  {
  }

  /** What stands behind a break: a line without breaks, or the next break of the same kind. */
  lemma NextLineStarts(lines: seq<string>, br: string)
    requires lines != [] && IsBreak(br) && forall k :: 0 <= k < |lines| ==> Breakless(lines[k])
    ensures var more := Joined(lines, br);
            more != "" ==> more[0] == br[0] || more[0] !in {'\r', '\n'}
  {
    assert Breakless(lines[0]);
    if lines[0] != "" {
      assert lines[0][0] in lines[0] && Joined(lines, br)[0] == lines[0][0];
    } else if |lines| > 1 {
      assert Joined(lines, br) == br + Joined(lines[1..], br);
    }
  }

  /** The same from the start of a text. */
  lemma LinesAndWidths(lines: seq<string>, br: string, tabsize: nat, i: nat, j: nat)
    requires IsBreak(br) && tabsize >= 1 && i < |lines| && j <= |lines[i]|
    requires forall k :: 0 <= k < |lines| ==> Breakless(lines[k])
    ensures var now := LineStart(lines, br, i) + j;
            && now <= |Joined(lines, br)|
            && Walk(Joined(lines, br), tabsize, Place(0, 0, 0), now) == Place(i, |Expanded(lines[i][..j], tabsize)|, now)
  {
    RowAndColumn("", lines, br, tabsize, 0, i, j);
    assert "" + Joined(lines, br) == Joined(lines, br);
  }
}
