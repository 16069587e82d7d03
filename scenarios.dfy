/** The cases the merger's tests exercise, stated for all inputs of their shape and
    proved from the contract of `Merge`. */
module MergeScenarios {
  import opened Types
  import opened FileUnits
  import opened MergeSpec
  import opened Merging

  /** With no files the trace is empty and the merge is clean. */
  lemma NoSourcesNoTrace(h: TimeHandler, t: seq<Emitted>, err: Error)
    requires MergedFrom([], h, t, err)
    ensures t == [] && err == Nil
  {
    ProjectionsPartition(t, 0);
    assert |multiset(Records(t))| == |Records(t)|;
  }

  /** When every file's stream ends cleanly, a merge cannot end with an error. */
  lemma CleanStreamsCleanMerge(sources: seq<Source>, h: TimeHandler, t: seq<Emitted>, err: Error)
    requires forall i :: 0 <= i < |sources| ==> Emissions(sources[i], h).end == Nil
    requires MergedFrom(sources, h, t, err)
    ensures err == Nil
  {
  }

  /** An opened file with no lines and no scanner error: priming finds it at end of
      input, and its stream is empty and clean. */
  lemma EmptySource(s: Source, h: TimeHandler)
    requires s.openErr == Nil && s.input == Input([], Nil)
    ensures SourceError(s, h) == Nil
    ensures Emissions(s, h) == Emission([], Nil)
  {
    assert Read(s.input, h, Initial) == Step(Initial.(eof := true), Nil);
  }

  /** `Merge(nil, output, getTime)`: with no files nothing is primed; the output's
      creation error is returned as it is, and otherwise the output is created empty
      and nil is returned. */
  method NilMerge(createErr: Error, h: TimeHandler) returns (err: Error, created: bool, out: seq<byte>)
    ensures createErr != Nil ==> err == createErr && !created && out == []
    ensures createErr == Nil ==> err == Nil && created && out == []
  {
    ghost var t;
    err, created, out, t := Merge([], createErr, h);
    if createErr == Nil {
      NoSourcesNoTrace(h, t, err);
    }
  }

  /** Merging files that are all empty (any number of them, none included): nil is
      returned and the output is created empty. */
  method EmptyMerge(sources: seq<Source>, h: TimeHandler) returns (err: Error, created: bool, out: seq<byte>)
    requires forall i :: 0 <= i < |sources| ==> sources[i].openErr == Nil && sources[i].input == Input([], Nil)
    ensures err == Nil && created && out == []
  {
    forall i | 0 <= i < |sources|
      ensures SourceError(sources[i], h) == Nil && Emissions(sources[i], h) == Emission([], Nil)
    {
      EmptySource(sources[i], h);
    }
    PrimeErrorAt(sources, h, |sources|);
    ghost var t;
    err, created, out, t := Merge(sources, Nil, h);
    CleanStreamsCleanMerge(sources, h, t, err);
    NothingToMerge(sources, h, t);
  }

  /** A file that primes cleanly merged with an empty one: the output is created and
      holds exactly the first file's stream, line by line, and the merge returns the
      error that ends that stream (nil when it reads to the end cleanly). */
  method MixMerge(first: Source, second: Source, h: TimeHandler) returns (err: Error, created: bool, out: seq<byte>)
    requires SourceError(first, h) == Nil
    requires second.openErr == Nil && second.input == Input([], Nil)
    ensures err == Emissions(first, h).end && created && out == Output(Emissions(first, h).records)
  {
    var sources := [first, second];
    EmptySource(second, h);
    PrimeErrorAt(sources, h, 2);
    ghost var t;
    err, created, out, t := Merge(sources, Nil, h);
    assert Project(t, 1) == [] by {
      assert Emissions(sources[1], h).records == [];
    }
    OnlyOneSource(t, 2, 0);
    if err != Nil {
      assert Emissions(sources[1], h).end == Nil;
    }
  }

  /** The first line of a file gets STOP with a nil error: priming succeeds without
      adopting anything, so the zero cursor goes into the heap and its record, an empty
      line at timestamp 0, is the first one the file contributes to the output. */
  lemma StopNilWhilePriming(s: Source, h: TimeHandler)
    requires s.openErr == Nil && |s.input.lines| > 0
    requires h(s.input.lines[0]).action == STOP && h(s.input.lines[0]).err == Nil
    ensures SourceError(s, h) == Nil && !Read(s.input, h, Initial).cursor.eof
    ensures Emissions(s, h).records != [] && Emissions(s, h).records[0] == Record(0, [])
  {
    ReadStops(s.input, h, Initial, 0);
  }

  /** A handler that STOPs every line with an error: priming the first file, when it
      opens and has a line, returns that error, and the output is never created. */
  method StopMerge(sources: seq<Source>, e: Error) returns (err: Error, created: bool, out: seq<byte>)
    requires e != Nil
    requires |sources| > 0 && sources[0].openErr == Nil && |sources[0].input.lines| > 0
    ensures err == e && !created && out == []
  {
    var h := (l: Line) => Verdict(0, STOP, e);
    ReadStops(sources[0].input, h, Initial, 0);
    PrimeErrorAt(sources, h, 0);
    ghost var t;
    err, created, out, t := Merge(sources, Nil, h);
  }

  /** The first file yields `l1` and then a line the handler STOPs with an error; the
      second file is empty. Priming succeeds, `l1` is written, and advancing past it
      returns the error: the output holds exactly `l1` and a newline. */
  method MidStopMerge(first: Source, second: Source, l1: Line, l2: Line, rest: seq<Line>, h: TimeHandler)
    returns (err: Error, created: bool, out: seq<byte>)
    requires first.openErr == Nil && first.input.lines == [l1, l2] + rest
    requires second.openErr == Nil && second.input == Input([], Nil)
    requires h(l1).action == NOP && h(l2).action == STOP && h(l2).err != Nil
    ensures err == h(l2).err && created && out == l1 + [NEWLINE]
  {
    var sources := [first, second];
    var input := first.input;
    var r := Record(h(l1).timestamp, l1);
    ReadAdopts(input, h, Initial, 0);
    var c1 := Initial.(pos := 1, timestamp := h(l1).timestamp, line := l1);
    ReadStops(input, h, c1, 1);
    assert Drain(input, h, c1) == Emission([], h(l2).err);
    assert Emissions(first, h) == Emission([r], h(l2).err);
    EmptySource(second, h);
    PrimeErrorAt(sources, h, 2);
    ghost var t;
    err, created, out, t := Merge(sources, Nil, h);
    assert Emissions(sources[0], h).end != Nil;
    assert Project(t, 1) <= [] by {
      assert Emissions(sources[1], h).records == [];
    }
    OnlyOneSource(t, 2, 0);
    assert Records(t) == [r] by {
      assert Project(t, 0) <= [r];
    }
    assert Records(t) == [] + [r];
  }

  /** A handler reading a one-byte line as its timestamp and STOPping the line `[9]`. */
  function ByteStamp(l: Line): (v: Verdict)
  {
    if l == [9] then Verdict(0, STOP, Err("stop"))
    else if |l| == 1 then Verdict(l[0] as int as int64, NOP, Nil)
    else Verdict(0, SKIP, Nil)
  }

  /** The first file of `AbortWritesEarlierLines`: it yields the records 1 and 3, then
      the STOP on `[9]` ends it with that error. */
  lemma StreamOneThreeStop(a: Input)
    requires a == Input([[1], [3], [9]], Nil)
    ensures Drain(a, ByteStamp, Initial) == Emission([Record(1, [1]), Record(3, [3])], Err("stop"))
  {
    var c1 := Initial.(pos := 1, timestamp := 1, line := [1]);
    var c2 := c1.(pos := 2, timestamp := 3, line := [3]);
    ReadAdopts(a, ByteStamp, Initial, 0);
    ReadAdopts(a, ByteStamp, c1, 1);
    ReadStops(a, ByteStamp, c2, 2);
    assert Drain(a, ByteStamp, c2) == Emission([], Err("stop"));
    assert Drain(a, ByteStamp, c1) == Emission([Record(3, [3])], Err("stop"));
  }

  /** The second file of `AbortWritesEarlierLines`: it yields the record 2 and ends cleanly. */
  lemma StreamTwo(b: Input)
    requires b == Input([[2]], Nil)
    ensures Drain(b, ByteStamp, Initial) == Emission([Record(2, [2])], Nil)
  {
    var d1 := Initial.(pos := 1, timestamp := 2, line := [2]);
    ReadAdopts(b, ByteStamp, Initial, 0);
    ReadAtEnd(b, ByteStamp, d1);
    assert Drain(b, ByteStamp, d1) == Emission([], Nil);
  }

  /** Two files: the first yields 1 and 3 and then STOPs, the second yields 2. `Merge`
      writes 2 before 3 and then fails; a trace holding 1 and 3 alone, which leaves out
      the earlier 2, is not an outcome `MergedFrom` admits. */
  lemma AbortWritesEarlierLines(sources: seq<Source>, t: seq<Emitted>)
    requires sources == [Source("a", Nil, Input([[1], [3], [9]], Nil)), Source("b", Nil, Input([[2]], Nil))]
    requires t == [Emitted(0, Record(1, [1])), Emitted(0, Record(3, [3]))]
    ensures !MergedFrom(sources, ByteStamp, t, Err("stop"))
  {
    StreamOneThreeStop(sources[0].input);
    StreamTwo(sources[1].input);
    var e0 := Emissions(sources[0], ByteStamp).records;
    var e1 := Emissions(sources[1], ByteStamp).records;
    assert SortedRecords(e0) && SortedRecords(e1);
    assert AllSorted(sources, ByteStamp);
    assert Project(t, 1) == [] by {
      assert t[..1] == [t[0]];
      assert Project(t[..1], 1) == [] by {
        assert t[..1][..0] == [];
      }
    }
    assert t[|t| - 1].record.timestamp > e1[0].timestamp;
  }

  /** A handler reading a one-byte line as its timestamp, STOPping `[8]` with "a" and
      `[9]` with "b". */
  function TwoStops(l: Line): (v: Verdict)
  {
    if l == [8] then Verdict(0, STOP, Err("a"))
    else if l == [9] then Verdict(0, STOP, Err("b"))
    else if |l| == 1 then Verdict(l[0] as int as int64, NOP, Nil)
    else Verdict(0, SKIP, Nil)
  }

  /** A file yielding one record at `ts` and then a line the handler STOPs with `e`. */
  lemma StreamThenStop(a: Input, ts: byte, stop: byte, e: Error)
    requires a == Input([[ts], [stop]], Nil) && TwoStops([ts]).action == NOP
    requires TwoStops([stop]) == Verdict(0, STOP, e)
    ensures Drain(a, TwoStops, Initial) == Emission([Record(ts as int as int64, [ts])], e)
  {
    var c1 := Initial.(pos := 1, timestamp := ts as int as int64, line := [ts]);
    ReadAdopts(a, TwoStops, Initial, 0);
    ReadStops(a, TwoStops, c1, 1);
    assert Drain(a, TwoStops, c1) == Emission([], e);
  }

  /** Two files: the first yields 1 and then STOPs with "a", the second yields 2 and
      then STOPs with "b". `Merge` writes 1, the first file's advance fails, and "a" is
      returned; writing 2 as well and returning "b" is not an outcome `MergedFrom`
      admits. */
  lemma AbortAtFirstFailure(sources: seq<Source>, t: seq<Emitted>)
    requires sources == [Source("a", Nil, Input([[1], [8]], Nil)), Source("b", Nil, Input([[2], [9]], Nil))]
    requires t == [Emitted(0, Record(1, [1])), Emitted(1, Record(2, [2]))]
    ensures !MergedFrom(sources, TwoStops, t, Err("b"))
  {
    StreamThenStop(sources[0].input, 1, 8, Err("a"));
    assert Project(t, 0) == [Record(1, [1])] by {
      assert t[..1] == [t[0]];
      assert Project(t[..1], 0) == [Record(1, [1])] by {
        assert t[..1][..0] == [];
      }
    }
  }
}
