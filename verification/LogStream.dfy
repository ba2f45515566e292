/** The per-thread line buffer and the stream that fills it: what is accepted, when it is handed
    to the log thread, and why the copy there stays in bounds. */
module LogLine {
  import opened Sequences
  import opened LogModel

  /** The pieces of a line that fit when `used` characters are taken; the others are skipped,
      later and shorter ones may still fit. */
  function Accepted(used: nat, pieces: seq<string>): string
    decreases |pieces|
  {
    if pieces == [] then ""
    else if used + |pieces[0]| > HEAD_LEVEL then Accepted(used, pieces[1..])
    else pieces[0] + Accepted(used + |pieces[0]|, pieces[1..])
  }

  function Joined(pieces: seq<string>): string {
    if pieces == [] then "" else pieces[0] + Joined(pieces[1..])
  }

  /** Each further piece is taken exactly when it fits behind what was taken, whether or not the
      ones before it did. */
  lemma {:induction false} AcceptedLast(used: nat, pieces: seq<string>, p: string)
    ensures Accepted(used, pieces + [p]) ==
              Accepted(used, pieces) + if used + |Accepted(used, pieces)| + |p| <= HEAD_LEVEL then p else ""
    decreases |pieces|
  {
    if pieces == [] {
      assert [p][1..] == [] && pieces + [p] == [p];
    } else {
      assert (pieces + [p])[1..] == pieces[1..] + [p];
      if used + |pieces[0]| > HEAD_LEVEL {
        AcceptedLast(used, pieces[1..], p);
      } else {
        AcceptedLast(used + |pieces[0]|, pieces[1..], p);
      }
    }
  }

  /** A line is taken whole exactly when it fits under the head level; in particular every line
      of up to 254 characters is. */
  lemma {:induction false} WholeLine(used: nat, pieces: seq<string>)
    requires used <= HEAD_LEVEL
    ensures |Accepted(used, pieces)| <= |Joined(pieces)|
    ensures Accepted(used, pieces) == Joined(pieces) <==> used + |Joined(pieces)| <= HEAD_LEVEL
    ensures used < LOW_LEVEL && |Joined(pieces)| <= 254 ==> Accepted(used, pieces) == Joined(pieces)
    decreases |pieces|
  {
    if pieces != [] {
      if used + |pieces[0]| > HEAD_LEVEL {
        WholeLine(used, pieces[1..]);
      } else {
        WholeLine(used + |pieces[0]|, pieces[1..]);
        var a, j := Accepted(used + |pieces[0]|, pieces[1..]), Joined(pieces[1..]);
        assert (pieces[0] + a)[|pieces[0]|..] == a && (pieces[0] + j)[|pieces[0]|..] == j;
      }
    }
  }

  lemma NextPiece(before: string, used: nat, rest: seq<string>)
    requires rest != []
    ensures used + |rest[0]| <= HEAD_LEVEL ==>
              before + Accepted(used, rest) == before + rest[0] + Accepted(used + |rest[0]|, rest[1..])
    ensures used + |rest[0]| > HEAD_LEVEL ==>
              before + Accepted(used, rest) == before + "" + Accepted(used, rest[1..])
  {
    Joins(before, rest[0], Accepted(used + |rest[0]|, rest[1..]), "");
    assert before + "" == before;
  }

  lemma Joins(a: string, b: string, c: string, d: string)
    ensures a + (b + c) + d == a + b + (c + d) && a + b + c == a + (b + c)
  {
  }

  /** How much of the buffer is taken after a line. */
  function Used(used: nat, pieces: seq<string>): nat {
    var u := used + |Accepted(used, pieces)| + 2;
    if u >= LOW_LEVEL then 0 else u
  }

  /** The text of a run of lines. */
  function Written(used: nat, lines: seq<seq<string>>): string
    decreases |lines|
  {
    if lines == [] then "" else Accepted(used, lines[0]) + "\r\n" + Written(Used(used, lines[0]), lines[1..])
  }

  lemma WrittenStep(out: string, used: nat, lines: seq<seq<string>>, i: nat)
    requires i < |lines|
    ensures out + Written(used, lines[i..])
         == out + (Accepted(used, lines[i]) + "\r\n") + Written(Used(used, lines[i]), lines[i + 1..])
  {
    assert lines[i..][1..] == lines[i + 1..];
    var text, tail := Accepted(used, lines[i]) + "\r\n", Written(Used(used, lines[i]), lines[i + 1..]);
    assert out + (text + tail) == out + text + tail;
  }

  /** The chunks `end` hands over fit a block that is fresh or just overwritten. */
  predicate FitsBlock(chunk: string) {
    LOW_LEVEL <= |chunk| <= MAX_CHUNK <= MAX_APPEND
  }

  const UNSIGNED_RANGE := 0x1_0000_0000

  /** Overrun: the copy leaves the buffer. */
  datatype Taking = Refused | Copied | Overrun

  class LogStream {
    const data: array<char>
    var writeIndex: nat
    /** What the callback has received so far. */
    var sent: seq<string>

    predicate InLine()
      reads this, data
    {
      data.Length == BUFFER_SIZE && writeIndex <= HEAD_LEVEL
    }

    /** The state between two lines. */
    predicate BetweenLines()
      reads this, data
    {
      InLine() && writeIndex < LOW_LEVEL
    }

    function Pending(): string
      requires writeIndex <= data.Length
      reads this, data
    {
      data[..writeIndex]
    }

    /** Everything taken in so far: handed over, then pending. */
    function Out(): string
      requires writeIndex <= data.Length
      reads this, data
    {
      Concat(sent) + Pending()
    }

    constructor ()
      ensures BetweenLines() && sent == [] && writeIndex == 0 && fresh(data)
    {
      data := new char[BUFFER_SIZE](_ => '\0');
      writeIndex, sent := 0, [];
    }

    /** The sum is an unsigned 32-bit one: a piece that wraps it passes the guard, and the copy
        would leave the buffer. */
    method WriteIn(line: string) returns (r: Taking)
      requires InLine() && |line| < UNSIGNED_RANGE
      modifies this`writeIndex, data
      ensures InLine()
      ensures r.Copied? <==> old(writeIndex) + |line| <= HEAD_LEVEL
      ensures r.Overrun? <==> old(writeIndex) + |line| >= UNSIGNED_RANGE
      ensures Pending() == old(Pending()) + if r.Copied? then line else ""
    {
      if (writeIndex + |line|) % UNSIGNED_RANGE > HEAD_LEVEL { return Refused; }
      if writeIndex + |line| > data.Length { return Overrun; }
      var start := writeIndex;
      for i := 0 to |line|
        invariant writeIndex == start && data[..start] == old(data[..writeIndex])
        invariant data[start..start + i] == line[..i]
      {
        data[start + i] := line[i];
      }
      writeIndex := start + |line|;
      assert data[..writeIndex] == data[..start] + data[start..start + |line|];
      r := Copied;
    }

    method WriteEnd() returns (full: bool)
      requires InLine()
      modifies this`writeIndex, data
      ensures writeIndex == old(writeIndex) + 2 <= MAX_CHUNK < data.Length == BUFFER_SIZE
      ensures Pending() == old(Pending()) + "\r\n"
      ensures full <==> writeIndex >= LOW_LEVEL
    {
      data[writeIndex], data[writeIndex + 1] := '\r', '\n';
      writeIndex := writeIndex + 2;
      full := writeIndex >= LOW_LEVEL;
    }

    /** `end`: terminate the line; hand the buffer over once it is nearly full. */
    method End()
      requires InLine()
      modifies this`writeIndex, this`sent, data
      ensures BetweenLines()
      ensures writeIndex == if old(writeIndex) + 2 >= LOW_LEVEL then 0 else old(writeIndex) + 2
      ensures Out() == old(Out()) + "\r\n"
      ensures sent == old(sent) || (sent == old(sent) + [old(Pending()) + "\r\n"] && FitsBlock(sent[|sent| - 1]))
    {
      var full := WriteEnd();
      if full {
        var chunk := data[..writeIndex];
        sent := sent + [chunk];
        writeIndex := 0;
        assert sent[..|sent| - 1] == old(sent);
        assert data[..0] == "";
      }
    }

    /** A whole line: any pieces, then `end`. */
    method Line(pieces: seq<string>)
      requires BetweenLines() && forall p <- pieces :: |p| + BUFFER_SIZE <= UNSIGNED_RANGE
      modifies this`writeIndex, this`sent, data
      ensures BetweenLines()
      ensures Out() == old(Out()) + (Accepted(old(writeIndex), pieces) + "\r\n")
      ensures writeIndex == Used(old(writeIndex), pieces)
      ensures sent == old(sent) || (|sent| == |old(sent)| + 1 && old(sent) < sent && FitsBlock(sent[|sent| - 1]))
    {
      var rest := pieces;
      while rest != []
        invariant InLine() && sent == old(sent) && forall p <- rest :: |p| + BUFFER_SIZE <= UNSIGNED_RANGE
        invariant Pending() + Accepted(writeIndex, rest) == old(Pending()) + Accepted(old(writeIndex), pieces)
      {
        ghost var before, used := Pending(), writeIndex;
        var _ := WriteIn(rest[0]);
        NextPiece(before, used, rest);
        rest := rest[1..];
      }
      Joins(Concat(sent), old(Pending()), Accepted(old(writeIndex), pieces), "\r\n");
      assert Pending() + "" == Pending();
      End();
    }

    /** Any run of lines: what is handed over and what is pending is the text of the lines, in
        order, and every chunk fits a block. */
    method Lines(lines: seq<seq<string>>)
      requires BetweenLines() && forall i, j :: 0 <= i < |lines| && 0 <= j < |lines[i]| ==> |lines[i][j]| < 0x1_0000
      modifies this`writeIndex, this`sent, data
      ensures BetweenLines() && old(sent) <= sent
      ensures Out() == old(Out()) + Written(old(writeIndex), lines)
      ensures forall i :: |old(sent)| <= i < |sent| ==> FitsBlock(sent[i])
    {
      ghost var whole := Out() + Written(writeIndex, lines);
      assert lines[0..] == lines;
      for i := 0 to |lines|
        invariant BetweenLines() && old(sent) <= sent
        invariant Out() + Written(writeIndex, lines[i..]) == whole
        invariant forall k :: |old(sent)| <= k < |sent| ==> FitsBlock(sent[k])
      {
        WrittenStep(Out(), writeIndex, lines, i);
        Line(lines[i]);
      }
      assert Out() + "" == Out();
    }
  }
}
