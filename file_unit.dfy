/** The per-file cursor (`fileUnit`) and its `readLine`: a specification of one read
    as a function on the cursor's state, its characterisation, and the class itself. */
module FileUnits {
  import opened Types

  /** What a `bufio.Scanner` over one file yields: its lines, then at the end of input
      either a clean end (`Nil`) or the scanner's error. */
  datatype Input = Input(lines: seq<Line>, scanErr: Error)

  /** The state of a cursor: the scanner's position and the fields `readLine` writes. */
  datatype Cursor = Cursor(pos: nat, timestamp: int64, line: Line, eof: bool)

  /** A fresh `fileUnit`: Go's zero values, nothing scanned yet. */
  const Initial := Cursor(0, 0, [], false)

  /** The cursor after one `readLine`, and the error it returns. */
  datatype Step = Step(cursor: Cursor, err: Error)

  /** Every line in [from, to) gets the action SKIP from the handler. */
  ghost predicate SkippedBetween(input: Input, h: TimeHandler, from: nat, to: nat)
    requires from <= to <= |input.lines|
  {
    forall j :: from <= j < to ==> h(input.lines[j]).action == SKIP
  }

  /** One `readLine` from cursor state `c`: scan lines, discarding those the handler
      SKIPs, until a line is adopted, a STOP returns its error, or input ends. */
  function Read(input: Input, h: TimeHandler, c: Cursor): (r: Step)
    ensures c.pos <= r.cursor.pos
    ensures r.err == Nil && !r.cursor.eof ==> c.pos < r.cursor.pos <= |input.lines|
    ensures c.eof ==> r.cursor.eof
    decreases |input.lines| - c.pos
  {
    if c.pos >= |input.lines| then
      if input.scanErr != Nil then Step(c, input.scanErr) else Step(c.(eof := true), Nil)
    else
      var l := input.lines[c.pos];
      var v := h(l);
      if v.action == SKIP then Read(input, h, c.(pos := c.pos + 1))
      else if v.action == STOP then Step(c.(pos := c.pos + 1), v.err)
      else Step(c.(pos := c.pos + 1, timestamp := v.timestamp, line := l), Nil)
  }

  /** End of input after any number of SKIPped lines: with no scanner error the cursor
      is marked `eof` and nil is returned; otherwise the scanner's error is returned and
      `eof` is left alone. In both cases `timestamp` and `line` are untouched. */
  lemma {:induction false} ReadAtEnd(input: Input, h: TimeHandler, c: Cursor)
    requires c.pos <= |input.lines|
    requires SkippedBetween(input, h, c.pos, |input.lines|)
    ensures input.scanErr == Nil ==>
      Read(input, h, c) == Step(c.(pos := |input.lines|, eof := true), Nil)
    ensures input.scanErr != Nil ==>
      Read(input, h, c) == Step(c.(pos := |input.lines|), input.scanErr)
    decreases |input.lines| - c.pos
  {
    if c.pos < |input.lines| {
      ReadAtEnd(input, h, c.(pos := c.pos + 1));
    }
  }

  /** The first line at or after the scanner's position that is not SKIPped gets STOP:
      the handler's error is returned as it is (nil included), the line is consumed, and
      `timestamp`, `line` and `eof` are unchanged. */
  lemma {:induction false} ReadStops(input: Input, h: TimeHandler, c: Cursor, k: nat)
    requires c.pos <= k < |input.lines|
    requires SkippedBetween(input, h, c.pos, k)
    requires h(input.lines[k]).action == STOP
    ensures Read(input, h, c) == Step(c.(pos := k + 1), h(input.lines[k]).err)
    decreases k - c.pos
  {
    if c.pos < k {
      ReadStops(input, h, c.(pos := c.pos + 1), k);
    }
  }

  /** The first line at or after the scanner's position that is not SKIPped gets any
      other action: that line and the handler's timestamp are stored, `eof` is unchanged
      and nil is returned, whatever error the handler gave with it. No SKIPped line is
      adopted: the adopted line is the first one that is not SKIPped. */
  lemma {:induction false} ReadAdopts(input: Input, h: TimeHandler, c: Cursor, k: nat)
    requires c.pos <= k < |input.lines|
    requires SkippedBetween(input, h, c.pos, k)
    requires h(input.lines[k]).action != SKIP && h(input.lines[k]).action != STOP
    ensures Read(input, h, c) ==
      Step(c.(pos := k + 1, timestamp := h(input.lines[k]).timestamp, line := input.lines[k]), Nil)
    decreases k - c.pos
  {
    if c.pos < k {
      ReadAdopts(input, h, c.(pos := c.pos + 1), k);
    }
  }

  /** A cursor over one open file: `fileUnit`. The scanner is its `input` and the
      position `pos` of the next line to scan. */
  class FileUnit {
    const filename: string
    const input: Input
    const getTime: TimeHandler
    var pos: nat
    var timestamp: int64
    var line: Line
    var eof: bool
    /** Which file of the merge this cursor reads (specification only). */
    ghost const index: nat

    /** The cursor's state as a value. */
    function State(): (c: Cursor)
      reads this
    {
      Cursor(pos, timestamp, line, eof)
    }

    /** `&fileUnit{scanner, filename, getTime}`: zero timestamp, no line, not at end. */
    constructor (filename: string, input: Input, getTime: TimeHandler, ghost index: nat)
      ensures this.filename == filename && this.input == input && this.getTime == getTime
      ensures this.index == index
      ensures State() == Initial
    {
      this.filename := filename;
      this.input := input;
      this.getTime := getTime;
      this.index := index;
      pos, timestamp, line, eof := 0, 0, [], false;
    }

    /** `readLine`: one read, as `Read` specifies it. */
    method ReadLine() returns (err: Error)
      modifies this
      ensures Step(State(), err) == Read(input, getTime, old(State()))
    {
      var tm: int64 := 0;
      var l: Line := [];
      var action: Action;
      while true
        invariant timestamp == old(timestamp) && line == old(line) && eof == old(eof)
        invariant Read(input, getTime, State()) == Read(input, getTime, old(State()))
        decreases |input.lines| - pos
      {
        if pos >= |input.lines| {
          if input.scanErr != Nil {
            return input.scanErr;
          }
          eof := true;
          return Nil;
        }
        l := input.lines[pos];
        pos := pos + 1;
        var v := getTime(l);
        tm, action, err := v.timestamp, v.action, v.err;
        if action == SKIP {
          continue;
        } else if action == STOP {
          return err;
        }
        break;
      }
      timestamp := tm;
      line := l;
      return Nil;
    }
  }
}
