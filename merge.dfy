/** `Merge`: open and prime every file, create the output, then repeatedly write the
    earliest held line and advance the cursor it came from. The proof keeps the state
    of every cursor as a value; lemmas about those values carry the reasoning. */
module Merging {
  import opened Types
  import opened FileUnits
  import opened FileHeaps
  import opened MergeSpec

  /** The cursor of a file, in state `c`, agrees with that file's stream once the
      records `p` of that file have been written. A cursor in the heap holds the next
      record, and what it yields after that completes the stream; a cursor out of the
      heap has had its whole stream written, and the stream ended cleanly. */
  ghost predicate Tracks(s: Source, h: TimeHandler, c: Cursor, p: seq<Record>, inHeap: bool)
  {
    var e := Emissions(s, h);
    if inHeap then
      var rest := Drain(s.input, h, c);
      p + [Record(c.timestamp, c.line)] + rest.records == e.records && rest.end == e.end
    else
      p == e.records && e.end == Nil
  }

  /** What the merge loop keeps, as values: `cursors[i]` is the state of file `i`'s
      cursor, `inHeap` the files whose cursors are in the heap, `t` the trace written.
      Every cursor agrees with its stream, and with every stream sorted the trace is
      sorted and no held record is earlier than the last one written. */
  ghost predicate MergeInvariant(sources: seq<Source>, h: TimeHandler, cursors: seq<Cursor>, inHeap: set<nat>, t: seq<Emitted>)
  {
    |cursors| <= |sources| && TagsValid(t, |cursors|) &&
    (forall i :: i in inHeap ==> i < |cursors|) &&
    (forall i :: 0 <= i < |cursors| ==> Tracks(sources[i], h, cursors[i], Project(t, i), i in inHeap)) &&
    (AllSorted(sources, h) ==>
      SortedRecords(Records(t)) &&
      (t != [] ==> forall i :: i in inHeap ==> t[|t| - 1].record.timestamp <= cursors[i].timestamp))
  }

  /** How many records each file's stream holds. */
  ghost function Lengths(sources: seq<Source>, h: TimeHandler): (ls: seq<nat>)
    ensures |ls| == |sources|
    ensures forall i :: 0 <= i < |sources| ==> ls[i] == |Emissions(sources[i], h).records|
  {
    seq(|sources|, i requires 0 <= i < |sources| => |Emissions(sources[i], h).records|)
  }

  /** How many of a stream's `l` records are still to be written once `p` of them are. */
  function Left(l: nat, p: nat): (n: nat)
  {
    if p <= l then l - p else 0
  }

  /** The records not yet written, over files `0 .. n-1` whose streams hold `ls[i]`
      records: the termination measure. */
  ghost function Pending(ls: seq<nat>, t: seq<Emitted>, n: nat): (m: nat)
    requires n <= |ls|
  {
    if n == 0 then 0 else Pending(ls, t, n - 1) + Left(ls[n - 1], |Project(t, n - 1)|)
  }

  /** Writing one more record of a file that still has one lowers the measure. */
  lemma {:induction false} PendingSnoc(ls: seq<nat>, t: seq<Emitted>, e: Emitted, n: nat)
    requires n <= |ls| && e.source < n
    requires |Project(t, e.source)| < ls[e.source]
    ensures Pending(ls, t + [e], n) < Pending(ls, t, n)
    decreases n
  {
    if e.source < n - 1 {
      ProjectSnoc(t, e, n - 1);
      PendingSnoc(ls, t, e, n - 1);
      assert Left(ls[n - 1], |Project(t + [e], n - 1)|) == Left(ls[n - 1], |Project(t, n - 1)|);
    } else {
      PendingLast(ls, t, e, n);
    }
  }

  /** The case of `PendingSnoc` where the record is of file `n-1`. */
  lemma PendingLast(ls: seq<nat>, t: seq<Emitted>, e: Emitted, n: nat)
    requires 0 < n <= |ls| && e.source == n - 1
    requires |Project(t, e.source)| < ls[e.source]
    ensures Pending(ls, t + [e], n) < Pending(ls, t, n)
  {
    ProjectSnoc(t, e, n - 1);
    assert Left(ls[n - 1], |Project(t + [e], n - 1)|) < Left(ls[n - 1], |Project(t, n - 1)|);
    PendingSame(ls, t, e, n - 1);
  }

  /** Writing a record of file `n` or later leaves the measure over `0 .. n-1` alone. */
  lemma {:induction false} PendingSame(ls: seq<nat>, t: seq<Emitted>, e: Emitted, n: nat)
    requires n <= |ls| && e.source >= n
    ensures Pending(ls, t + [e], n) == Pending(ls, t, n)
    decreases n
  {
    if n > 0 {
      ProjectSnoc(t, e, n - 1);
      assert Project(t + [e], n - 1) == Project(t, n - 1);
      PendingSame(ls, t, e, n - 1);
    }
  }

  /** Appending a record no earlier than the last keeps records sorted. */
  lemma SortedSnoc(rs: seq<Record>, r: Record)
    requires SortedRecords(rs)
    requires rs != [] ==> rs[|rs| - 1].timestamp <= r.timestamp
    ensures SortedRecords(rs + [r])
  {
  }

  /** In a sorted stream, a record is no later than the one after it. */
  lemma SortedNext(a: seq<Record>, b: Record, c: seq<Record>)
    requires SortedRecords(a + [b] + c) && c != []
    ensures b.timestamp <= c[0].timestamp
  {
    assert (a + [b] + c)[|a|] == b;
    assert (a + [b] + c)[|a| + 1] == c[0];
  }

  /** How `readLine` on a cursor just written out continues its file's stream: an error
      ends the stream there, end of input ends it cleanly, and a new line is the next
      record of the stream. */
  lemma Advance(e: Emission, p: seq<Record>, r: Record, input: Input, h: TimeHandler, c: Cursor)
    requires p + [r] + Drain(input, h, c).records == e.records && Drain(input, h, c).end == e.end
    ensures var st := Read(input, h, c);
      (st.err != Nil ==> p + [r] == e.records && e.end == st.err) &&
      (st.err == Nil && st.cursor.eof ==> p + [r] == e.records && e.end == Nil) &&
      (st.err == Nil && !st.cursor.eof ==>
        var next := Record(st.cursor.timestamp, st.cursor.line);
        var rest := Drain(input, h, st.cursor);
        (p + [r]) + [next] + rest.records == e.records &&
        p + [r] + ([next] + rest.records) == e.records &&
        rest.end == e.end)
  {
    var st := Read(input, h, c);
    if st.err == Nil && !st.cursor.eof {
      var next := Record(st.cursor.timestamp, st.cursor.line);
      var rest := Drain(input, h, st.cursor);
      assert Drain(input, h, c).records == [next] + rest.records;
      assert (p + [r]) + [next] + rest.records == p + [r] + ([next] + rest.records);
    }
  }

  /** Priming one more file whose first `readLine` succeeds: its cursor agrees with its
      stream, in the heap unless it is already at end of input. */
  lemma PrimeStep(sources: seq<Source>, h: TimeHandler, cursors: seq<Cursor>, inHeap: set<nat>)
    requires MergeInvariant(sources, h, cursors, inHeap, []) && |cursors| < |sources|
    requires Read(sources[|cursors|].input, h, Initial).err == Nil
    ensures var k := |cursors|;
      var c := Read(sources[k].input, h, Initial).cursor;
      MergeInvariant(sources, h, cursors + [c], if c.eof then inHeap else inHeap + {k}, [])
  {
    var k := |cursors|;
    var c := Read(sources[k].input, h, Initial).cursor;
    var inHeap' := if c.eof then inHeap else inHeap + {k};
    assert Project([], k) == [];
    FirstTracks(sources[k], h);
    forall i | 0 <= i < k
      ensures Tracks(sources[i], h, (cursors + [c])[i], Project([], i), i in inHeap')
    {
      assert (cursors + [c])[i] == cursors[i];
    }
  }

  /** A file whose first `readLine` succeeds: its cursor holds the first record of its
      stream, unless the stream is empty and the cursor at end of input. */
  lemma FirstTracks(s: Source, h: TimeHandler)
    requires Read(s.input, h, Initial).err == Nil
    ensures var c := Read(s.input, h, Initial).cursor; Tracks(s, h, c, [], !c.eof)
  {
  }

  /** Writing the held record of cursor `i` and advancing it: every other cursor keeps
      agreeing with its stream, and so does the advanced one unless it failed, in which
      case its stream is wholly written and ends with that error. */
  lemma StepTracks(sources: seq<Source>, h: TimeHandler, cursors: seq<Cursor>, inHeap: set<nat>,
                   t: seq<Emitted>, i: nat)
    requires MergeInvariant(sources, h, cursors, inHeap, t) && i in inHeap
    ensures var c := cursors[i];
      var t' := t + [Emitted(i, Record(c.timestamp, c.line))];
      var st := Read(sources[i].input, h, c);
      var inHeap' := if st.cursor.eof then inHeap - {i} else inHeap;
      TagsValid(t', |cursors|) &&
      (forall j :: 0 <= j < |cursors| && j != i ==>
        Project(t', j) == Project(t, j) && Tracks(sources[j], h, cursors[j], Project(t', j), j in inHeap')) &&
      Project(t', i) == Project(t, i) + [Record(c.timestamp, c.line)] &&
      (st.err != Nil ==> Project(t', i) == Emissions(sources[i], h).records && Emissions(sources[i], h).end == st.err) &&
      (st.err == Nil ==> Tracks(sources[i], h, st.cursor, Project(t', i), i in inHeap'))
  {
    var c := cursors[i];
    var r := Record(c.timestamp, c.line);
    var t' := t + [Emitted(i, r)];
    var st := Read(sources[i].input, h, c);
    var inHeap' := if st.cursor.eof then inHeap - {i} else inHeap;
    forall j | 0 <= j < |cursors| && j != i
      ensures Project(t', j) == Project(t, j) && Tracks(sources[j], h, cursors[j], Project(t', j), j in inHeap')
    {
      ProjectSnoc(t, Emitted(i, r), j);
      assert (j in inHeap') == (j in inHeap);
      assert Tracks(sources[j], h, cursors[j], Project(t, j), j in inHeap);
    }
    ProjectSnoc(t, Emitted(i, r), i);
    assert Tracks(sources[i], h, c, Project(t, i), true);
    Advance(Emissions(sources[i], h), Project(t, i), r, sources[i].input, h, c);
  }

  /** Writing the earliest held record keeps the trace sorted, and the advanced cursor's
      next record is no earlier than it. */
  lemma StepSorted(sources: seq<Source>, h: TimeHandler, cursors: seq<Cursor>, inHeap: set<nat>,
                   t: seq<Emitted>, i: nat)
    requires MergeInvariant(sources, h, cursors, inHeap, t) && i in inHeap
    requires forall j :: j in inHeap ==> cursors[i].timestamp <= cursors[j].timestamp
    requires AllSorted(sources, h)
    ensures var c := cursors[i];
      var t' := t + [Emitted(i, Record(c.timestamp, c.line))];
      var st := Read(sources[i].input, h, c);
      SortedRecords(Records(t')) &&
      (st.err == Nil && !st.cursor.eof ==> c.timestamp <= st.cursor.timestamp)
  {
    var c := cursors[i];
    var r := Record(c.timestamp, c.line);
    var st := Read(sources[i].input, h, c);
    RecordsSnoc(t, Emitted(i, r));
    if t != [] {
      assert Records(t)[|t| - 1] == t[|t| - 1].record;
    }
    SortedSnoc(Records(t), r);
    assert Tracks(sources[i], h, c, Project(t, i), true);
    Advance(Emissions(sources[i], h), Project(t, i), r, sources[i].input, h, c);
    if st.err == Nil && !st.cursor.eof {
      var next := Record(st.cursor.timestamp, st.cursor.line);
      var rest := Drain(sources[i].input, h, st.cursor);
      assert SortedRecords(Emissions(sources[i], h).records);
      SortedNext(Project(t, i), r, [next] + rest.records);
    }
  }

  /** A round whose advance succeeds keeps the state: the advanced cursor in the
      heap unless it reached end of input. */
  lemma StepKeeps(sources: seq<Source>, h: TimeHandler, cursors: seq<Cursor>, inHeap: set<nat>,
                  t: seq<Emitted>, i: nat)
    requires MergeInvariant(sources, h, cursors, inHeap, t) && i in inHeap
    requires forall j :: j in inHeap ==> cursors[i].timestamp <= cursors[j].timestamp
    requires Read(sources[i].input, h, cursors[i]).err == Nil
    ensures var c := cursors[i];
      var st := Read(sources[i].input, h, c);
      MergeInvariant(sources, h, cursors[i := st.cursor], if st.cursor.eof then inHeap - {i} else inHeap,
            t + [Emitted(i, Record(c.timestamp, c.line))])
  {
    var c := cursors[i];
    var t' := t + [Emitted(i, Record(c.timestamp, c.line))];
    var st := Read(sources[i].input, h, c);
    var inHeap' := if st.cursor.eof then inHeap - {i} else inHeap;
    var cursors' := cursors[i := st.cursor];
    StepTracks(sources, h, cursors, inHeap, t, i);
    forall j | 0 <= j < |cursors'|
      ensures Tracks(sources[j], h, cursors'[j], Project(t', j), j in inHeap')
    {
      if j != i {
        assert cursors'[j] == cursors[j];
      }
    }
    if AllSorted(sources, h) {
      StepSorted(sources, h, cursors, inHeap, t, i);
      assert t'[|t'| - 1].record == Record(c.timestamp, c.line);
    }
  }

  /** Every round writes one record that was still pending: the measure drops. */
  lemma StepShrinks(sources: seq<Source>, h: TimeHandler, cursors: seq<Cursor>, inHeap: set<nat>,
                    t: seq<Emitted>, i: nat)
    requires MergeInvariant(sources, h, cursors, inHeap, t) && |cursors| == |sources| && i in inHeap
    ensures var c := cursors[i];
      var ls := Lengths(sources, h);
      Pending(ls, t + [Emitted(i, Record(c.timestamp, c.line))], |ls|) < Pending(ls, t, |ls|)
  {
    var c := cursors[i];
    assert Tracks(sources[i], h, c, Project(t, i), true);
    PendingSnoc(Lengths(sources, h), t, Emitted(i, Record(c.timestamp, c.line)), |sources|);
  }

  /** The records of a file written so far, while its cursor agrees with its stream,
      are a prefix of that stream. */
  lemma TracksPrefix(s: Source, h: TimeHandler, c: Cursor, p: seq<Record>, inHeap: bool)
    requires Tracks(s, h, c, p, inHeap)
    ensures p <= Emissions(s, h).records
  {
    if inHeap {
      var rest := Drain(s.input, h, c);
      assert p + ([Record(c.timestamp, c.line)] + rest.records) == Emissions(s, h).records;
    }
  }

  /** A round whose advance fails ends the merge as `MergedFrom` describes: the failing
      file's stream is wholly written and ends with that error, every other file's
      records so far are a prefix of its stream, and no other file ended in error. */
  lemma StepFails(sources: seq<Source>, h: TimeHandler, cursors: seq<Cursor>, inHeap: set<nat>,
                  t: seq<Emitted>, i: nat)
    requires MergeInvariant(sources, h, cursors, inHeap, t) && |cursors| == |sources| && i in inHeap
    requires forall j :: j in inHeap ==> cursors[i].timestamp <= cursors[j].timestamp
    requires Read(sources[i].input, h, cursors[i]).err != Nil
    ensures var c := cursors[i];
      MergedFrom(sources, h, t + [Emitted(i, Record(c.timestamp, c.line))], Read(sources[i].input, h, c).err)
  {
    var c := cursors[i];
    var t' := t + [Emitted(i, Record(c.timestamp, c.line))];
    StepTracks(sources, h, cursors, inHeap, t, i);
    if AllSorted(sources, h) {
      StepSorted(sources, h, cursors, inHeap, t, i);
    }
    var err := Read(sources[i].input, h, c).err;
    if AllSorted(sources, h) {
      StepFailsEarliest(sources, h, cursors, inHeap, t, i);
    }
    assert t'[|t'| - 1].source == i;
    assert Emissions(sources[i], h).end == err && Project(t', i) == Emissions(sources[i], h).records;
    forall j | 0 <= j < |sources| && j != i
      ensures Project(t', j) <= Emissions(sources[j], h).records
    {
      TracksPrefix(sources[j], h, cursors[j], Project(t, j), j in inHeap);
    }
    StepFailsFirst(sources, h, cursors, inHeap, t, i);
  }

  /** The failing advance is the first: every other file whose stream is already written
      in full has left the heap, and a cursor leaves the heap only at a clean end. */
  lemma StepFailsFirst(sources: seq<Source>, h: TimeHandler, cursors: seq<Cursor>, inHeap: set<nat>,
                       t: seq<Emitted>, i: nat)
    requires MergeInvariant(sources, h, cursors, inHeap, t) && |cursors| == |sources| && i in inHeap
    ensures var c := cursors[i];
      OnlyLastFailed(sources, h, t + [Emitted(i, Record(c.timestamp, c.line))])
  {
    var c := cursors[i];
    var e := Emitted(i, Record(c.timestamp, c.line));
    var t' := t + [e];
    assert t'[|t'| - 1].source == i;
    forall j | 0 <= j < |sources| && j != i && Project(t', j) == Emissions(sources[j], h).records
      ensures Emissions(sources[j], h).end == Nil
    {
      ProjectSnoc(t, e, j);
      assert Project(t, j) == Emissions(sources[j], h).records;
      assert Tracks(sources[j], h, cursors[j], Project(t, j), j in inHeap);
    }
  }

  /** When an advance fails with every stream sorted, no record left unwritten is earlier
      than the one just written: that record was the least held one, every other held
      record is a file's next one, and each file's later records are no earlier. */
  lemma StepFailsEarliest(sources: seq<Source>, h: TimeHandler, cursors: seq<Cursor>, inHeap: set<nat>,
                          t: seq<Emitted>, i: nat)
    requires MergeInvariant(sources, h, cursors, inHeap, t) && |cursors| == |sources| && i in inHeap
    requires forall j :: j in inHeap ==> cursors[i].timestamp <= cursors[j].timestamp
    requires Read(sources[i].input, h, cursors[i]).err != Nil
    requires AllSorted(sources, h)
    ensures var c := cursors[i];
      NothingEarlierLeft(sources, h, t + [Emitted(i, Record(c.timestamp, c.line))])
  {
    var c := cursors[i];
    var t' := t + [Emitted(i, Record(c.timestamp, c.line))];
    StepTracks(sources, h, cursors, inHeap, t, i);
    assert t'[|t'| - 1].record.timestamp == c.timestamp;
    forall j, k | 0 <= j < |sources| && |Project(t', j)| <= k < |Emissions(sources[j], h).records|
      ensures c.timestamp <= Emissions(sources[j], h).records[k].timestamp
    {
      if j != i {
        assert SortedRecords(Emissions(sources[j], h).records);
        RestNoEarlier(sources[j], h, cursors[j], Project(t, j), j in inHeap, c.timestamp, k);
      }
    }
  }

  /** The records of a file not yet written, while its cursor agrees with its stream and
      holds a record no earlier than `x`, are all no earlier than `x` when the stream is
      sorted. */
  lemma RestNoEarlier(s: Source, h: TimeHandler, c: Cursor, p: seq<Record>, inHeap: bool, x: int64, k: nat)
    requires Tracks(s, h, c, p, inHeap) && SortedRecords(Emissions(s, h).records)
    requires inHeap ==> x <= c.timestamp
    requires |p| <= k < |Emissions(s, h).records|
    ensures x <= Emissions(s, h).records[k].timestamp
  {
    if inHeap {
      var e := Emissions(s, h).records;
      assert e[|p|] == Record(c.timestamp, c.line);
      assert e[|p|].timestamp <= e[k].timestamp;
    }
  }

  /** No cursor left in the heap: every file was drained cleanly and wholly written. */
  lemma Finish(sources: seq<Source>, h: TimeHandler, cursors: seq<Cursor>, t: seq<Emitted>)
    requires MergeInvariant(sources, h, cursors, {}, t) && |cursors| == |sources|
    ensures MergedFrom(sources, h, t, Nil)
  {
    forall i | 0 <= i < |sources|
      ensures Emissions(sources[i], h).end == Nil && Project(t, i) == Emissions(sources[i], h).records
    {
      assert Tracks(sources[i], h, cursors[i], Project(t, i), false);
    }
  }

  /** Cursor `units[i]` reads file `i` with handler `h`. */
  ghost predicate Configured(units: seq<FileUnit>, sources: seq<Source>, h: TimeHandler)
  {
    |units| <= |sources| &&
    forall i :: 0 <= i < |units| ==>
      units[i].index == i && units[i].input == sources[i].input && units[i].getTime == h
  }

  /** The objects agree with the values the proof keeps: cursor `units[i]` is in state
      `cursors[i]`, and the heap holds exactly the cursors of the files in `inHeap`. */
  ghost predicate Linked(heap: FileHeap, units: seq<FileUnit>, active: set<FileUnit>, inHeap: set<nat>,
                         cursors: seq<Cursor>, sources: seq<Source>, h: TimeHandler)
    reads heap, heap.data, heap.elems, units
  {
    heap.Valid() && heap.Bag() == multiset(active) &&
    Configured(units, sources, h) && |units| == |cursors| &&
    (forall i :: 0 <= i < |units| ==> units[i].State() == cursors[i]) &&
    (forall u :: u in active ==> u.index < |units| && units[u.index] == u) &&
    (forall i :: 0 <= i < |units| ==> (units[i] in active <==> i in inHeap)) &&
    (forall i :: i in inHeap ==> i < |units|)
  }

  /** The conditional `heap.Push` after each `readLine`: a cursor not at end of input
      goes (back) into the heap, which then holds the files it held and this one. */
  method Reinsert(heap: FileHeap, fu: FileUnit, ghost units: seq<FileUnit>, ghost active0: set<FileUnit>,
                  ghost inHeap0: set<nat>, ghost cursors: seq<Cursor>, sources: seq<Source>, h: TimeHandler)
    returns (ghost active: set<FileUnit>, ghost inHeap: set<nat>)
    requires Linked(heap, units, active0, inHeap0, cursors, sources, h)
    requires fu.index < |units| && units[fu.index] == fu && fu.index !in inHeap0
    modifies heap, heap.data
    ensures heap.data == old(heap.data) || fresh(heap.data)
    ensures inHeap == if fu.eof then inHeap0 else inHeap0 + {fu.index}
    ensures Linked(heap, units, active, inHeap, cursors, sources, h)
  {
    active, inHeap := active0, inHeap0;
    if !fu.eof {
      InsertLinks(units, active0, inHeap0, fu, sources, h);
      heap.Push(fu);
      active, inHeap := active0 + {fu}, inHeap0 + {fu.index};
      assert multiset(active) == multiset(active0) + multiset{fu};
    }
  }

  /** Adding a cursor that is not in the heap to the heap's cursors keeps the links
      between cursors and file indices. */
  lemma InsertLinks(units: seq<FileUnit>, active: set<FileUnit>, inHeap: set<nat>, fu: FileUnit,
                    sources: seq<Source>, h: TimeHandler)
    requires Configured(units, sources, h)
    requires forall u :: u in active ==> u.index < |units| && units[u.index] == u
    requires forall i :: 0 <= i < |units| ==> (units[i] in active <==> i in inHeap)
    requires fu.index < |units| && units[fu.index] == fu && fu.index !in inHeap
    ensures fu !in active
    ensures forall u :: u in active + {fu} ==> u.index < |units| && units[u.index] == u
    ensures forall i :: 0 <= i < |units| ==> (units[i] in active + {fu} <==> i in inHeap + {fu.index})
  {
    forall j | 0 <= j < |units|
      ensures units[j] in active + {fu} <==> j in inHeap + {fu.index}
    {
      assert (units[j] == fu) == (j == fu.index);
    }
  }

  /** A cursor for the next file, not yet in the heap, joins the cursors. */
  lemma LinkedExtend(heap: FileHeap, units: seq<FileUnit>, active: set<FileUnit>, inHeap: set<nat>,
                     cursors: seq<Cursor>, u: FileUnit, sources: seq<Source>, h: TimeHandler)
    requires Linked(heap, units, active, inHeap, cursors, sources, h)
    requires |units| < |sources| && u.index == |units| && u.input == sources[|units|].input && u.getTime == h
    requires u !in units
    ensures Linked(heap, units + [u], active, inHeap, cursors + [u.State()], sources, h)
  {
    var units', cursors' := units + [u], cursors + [u.State()];
    forall i | 0 <= i < |units'|
      ensures units'[i].index == i && units'[i].input == sources[i].input && units'[i].getTime == h
      ensures units'[i].State() == cursors'[i]
      ensures units'[i] in active <==> i in inHeap
    {
      if i < |units| {
        assert units'[i] == units[i] && cursors'[i] == cursors[i];
      } else {
        assert u !in active;
      }
    }
    forall v | v in active
      ensures v.index < |units'| && units'[v.index] == v
    {
      assert units'[v.index] == units[v.index];
    }
  }

  /** After priming files `0 .. |cursors|-1`: each cursor holds the state one `readLine`
      from the start of its file gives, and is in the heap exactly when it is not at end
      of input. */
  ghost predicate Primed(sources: seq<Source>, h: TimeHandler, cursors: seq<Cursor>, inHeap: set<nat>)
    requires |cursors| <= |sources|
  {
    forall i :: 0 <= i < |cursors| ==>
      cursors[i] == Read(sources[i].input, h, Initial).cursor && (i in inHeap <==> !cursors[i].eof)
  }

  /** Priming one more file, pushed unless at end of input, extends `Primed`. */
  lemma PrimedExtend(sources: seq<Source>, h: TimeHandler, cursors: seq<Cursor>, inHeap: set<nat>)
    requires |cursors| < |sources| && Primed(sources, h, cursors, inHeap)
    requires forall i :: i in inHeap ==> i < |cursors|
    ensures var k, c := |cursors|, Read(sources[|cursors|].input, h, Initial).cursor;
      Primed(sources, h, cursors + [c], if c.eof then inHeap else inHeap + {k})
  {
    var k, c := |cursors|, Read(sources[|cursors|].input, h, Initial).cursor;
    var cs, ih := cursors + [c], if c.eof then inHeap else inHeap + {k};
    forall i | 0 <= i < |cs|
      ensures cs[i] == Read(sources[i].input, h, Initial).cursor && (i in ih <==> !cs[i].eof)
    {
      if i < k {
        assert cs[i] == cursors[i];
      }
    }
  }

  /** One round of the priming loop on file `k`: open it, read its first line, and
      push its cursor unless it is at end of input. */
  method PrimeOne(heap: FileHeap, sources: seq<Source>, k: nat, getTime: TimeHandler,
                  ghost units0: seq<FileUnit>, ghost active0: set<FileUnit>,
                  ghost inHeap0: set<nat>, ghost cursors0: seq<Cursor>)
    returns (err: Error, ghost fu: FileUnit?, ghost units: seq<FileUnit>, ghost active: set<FileUnit>,
             ghost inHeap: set<nat>, ghost cursors: seq<Cursor>)
    requires k < |sources| && |units0| == k
    requires Linked(heap, units0, active0, inHeap0, cursors0, sources, getTime)
    requires MergeInvariant(sources, getTime, cursors0, inHeap0, [])
    requires |cursors0| == k && Primed(sources, getTime, cursors0, inHeap0)
    modifies heap, heap.data
    ensures err == SourceError(sources[k], getTime)
    ensures heap.data == old(heap.data) || fresh(heap.data)
    ensures err == Nil ==> fu != null && fresh(fu) && units == units0 + [fu]
    ensures err == Nil ==> var c := Read(sources[k].input, getTime, Initial).cursor;
      cursors == cursors0 + [c] && inHeap == if c.eof then inHeap0 else inHeap0 + {k}
    ensures err == Nil ==> Linked(heap, units, active, inHeap, cursors, sources, getTime)
    ensures err == Nil ==> MergeInvariant(sources, getTime, cursors, inHeap, [])
    ensures err == Nil ==> Primed(sources, getTime, cursors, inHeap)
  {
    units, active, inHeap, cursors := units0, active0, inHeap0, cursors0;
    var s := sources[k];
    if s.openErr != Nil {
      return s.openErr, null, units, active, inHeap, cursors;
    }
    var u := new FileUnit(s.path, s.input, getTime, k);
    fu := u;
    err := u.ReadLine();
    if err != Nil {
      return;
    }
    LinkedExtend(heap, units0, active0, inHeap0, cursors0, u, sources, getTime);
    units, cursors := units0 + [u], cursors0 + [u.State()];
    active, inHeap := Reinsert(heap, u, units, active0, inHeap0, cursors, sources, getTime);
    PrimeStep(sources, getTime, cursors0, inHeap0);
    PrimedExtend(sources, getTime, cursors0, inHeap0);
  }

  /** The priming loop of `Merge`: open each file in order, read its first line, and
      push its cursor unless it is already at end of input. Fails with the first error. */
  method Prime(sources: seq<Source>, getTime: TimeHandler)
    returns (err: Error, heap: FileHeap, ghost units: seq<FileUnit>, ghost active: set<FileUnit>,
             ghost inHeap: set<nat>, ghost cursors: seq<Cursor>)
    ensures err == PrimeError(sources, getTime)
    ensures fresh(heap) && fresh(heap.data)
    ensures err == Nil ==> |units| == |sources| && forall i :: 0 <= i < |units| ==> fresh(units[i])
    ensures err == Nil ==> Linked(heap, units, active, inHeap, cursors, sources, getTime)
    ensures err == Nil ==> MergeInvariant(sources, getTime, cursors, inHeap, [])
    ensures err == Nil ==> |cursors| == |sources| && Primed(sources, getTime, cursors, inHeap)
  {
    heap := new FileHeap();
    units, active, inHeap, cursors := [], {}, {}, [];
    for k := 0 to |sources|
      invariant |units| == k
      invariant fresh(heap) && fresh(heap.data)
      invariant forall i :: 0 <= i < k ==> fresh(units[i])
      invariant forall i :: 0 <= i < k ==> SourceError(sources[i], getTime) == Nil
      invariant Linked(heap, units, active, inHeap, cursors, sources, getTime)
      invariant MergeInvariant(sources, getTime, cursors, inHeap, [])
      invariant |cursors| == k && Primed(sources, getTime, cursors, inHeap)
    {
      ghost var fu;
      ghost var units0, cursors0, inHeap0 := units, cursors, inHeap;
      err, fu, units, active, inHeap, cursors := PrimeOne(heap, sources, k, getTime, units, active, inHeap, cursors);
      if err != Nil {
        PrimeErrorAt(sources, getTime, k);
        return;
      }
      forall i | 0 <= i < k + 1
        ensures fresh(units[i]) && SourceError(sources[i], getTime) == Nil
      {
        if i < k {
          assert units[i] == units0[i];
        }
      }
    }
    PrimeErrorAt(sources, getTime, |sources|);
    err := Nil;
  }

  /** Taking a file out of the heap and putting it back leaves the set as it was. */
  lemma PutBack(inHeap: set<nat>, i: nat)
    requires i in inHeap
    ensures (inHeap - {i}) + {i} == inHeap
  {
  }

  /** `heap.Pop`: take out the cursor whose held record is earliest among the files
      in the heap. */
  method PopEarliest(heap: FileHeap, ghost units: seq<FileUnit>, ghost active0: set<FileUnit>,
                     ghost inHeap0: set<nat>, ghost cursors0: seq<Cursor>, sources: seq<Source>, h: TimeHandler)
    returns (fu: FileUnit, ghost active: set<FileUnit>)
    requires Linked(heap, units, active0, inHeap0, cursors0, sources, h) && heap.Len() > 0
    modifies heap, heap.data
    ensures heap.Valid() && heap.data == old(heap.data) && heap.Bag() == multiset(active) && fu !in heap.elems
    ensures fu.index in inHeap0 && fu.index < |units| && units[fu.index] == fu && active == active0 - {fu}
    ensures forall j :: j in inHeap0 ==> cursors0[fu.index].timestamp <= cursors0[j].timestamp
    ensures Linked(heap, units, active, inHeap0 - {fu.index}, cursors0, sources, h)
  {
    RootLinks(heap, units, active0, inHeap0, cursors0, sources, h);
    fu := heap.PopMin();
    active := active0 - {fu};
    assert multiset(active) == multiset(active0) - multiset{fu};
    assert fu !in heap.elems by {
      assert multiset(heap.elems) == multiset(active);
    }
  }

  /** The cursor at the heap's root belongs to a file in the heap, holds the earliest
      record among them, and removing it leaves the links of the other files intact. */
  lemma RootLinks(heap: FileHeap, units: seq<FileUnit>, active: set<FileUnit>, inHeap: set<nat>,
                  cursors: seq<Cursor>, sources: seq<Source>, h: TimeHandler)
    requires Linked(heap, units, active, inHeap, cursors, sources, h) && heap.Len() > 0
    ensures heap.elems[0] in active
    ensures heap.elems[0].index in inHeap && units[heap.elems[0].index] == heap.elems[0]
    ensures forall j :: j in inHeap ==> cursors[heap.elems[0].index].timestamp <= cursors[j].timestamp
    ensures forall j :: 0 <= j < |units| ==>
      (units[j] in active - {heap.elems[0]} <==> j in inHeap - {heap.elems[0].index})
  {
    var fu := heap.elems[0];
    FileHeaps.RootIsLeast(heap.elems);
    assert fu in multiset(active);
    forall j | j in inHeap
      ensures cursors[fu.index].timestamp <= cursors[j].timestamp
    {
      assert units[j] in multiset(active);
      assert units[j] in heap.elems;
    }
    forall j | 0 <= j < |units|
      ensures units[j] in active - {fu} <==> j in inHeap - {fu.index}
    {
      assert (units[j] == fu) == (j == fu.index);
    }
  }

  /** `fu.readLine()` on a cursor out of the heap: its new state is `Read`'s, and
      nothing else changes. */
  method AdvanceCursor(heap: FileHeap, fu: FileUnit, ghost units: seq<FileUnit>, ghost active: set<FileUnit>,
                       ghost inHeap: set<nat>, ghost cursors0: seq<Cursor>, sources: seq<Source>, h: TimeHandler)
    returns (err: Error, ghost cursors: seq<Cursor>)
    requires Linked(heap, units, active, inHeap, cursors0, sources, h)
    requires fu.index < |units| && units[fu.index] == fu && fu.index !in inHeap
    modifies fu
    ensures Step(fu.State(), err) == Read(sources[fu.index].input, h, cursors0[fu.index])
    ensures cursors == cursors0[fu.index := fu.State()]
    ensures Linked(heap, units, active, inHeap, cursors, sources, h)
  {
    ghost var i := fu.index;
    assert fu !in heap.elems by {
      assert fu !in active;
      assert multiset(heap.elems) == multiset(active);
      assert fu !in multiset(heap.elems);
    }
    err := fu.ReadLine();
    cursors := cursors0[i := fu.State()];
    forall j | 0 <= j < |units|
      ensures units[j].State() == cursors[j]
    {
      if j != i {
        assert units[j].index != fu.index;
      }
    }
  }

  /** One round of the write loop: pop the earliest cursor, write its line and a
      newline, advance it, and push it back unless it reached end of input. Returns
      the error of a failing advance. */
  method Round(heap: FileHeap, ghost units: seq<FileUnit>, ghost active0: set<FileUnit>,
               ghost inHeap0: set<nat>, ghost cursors0: seq<Cursor>,
               sources: seq<Source>, h: TimeHandler, out0: seq<byte>, ghost trace0: seq<Emitted>)
    returns (err: Error, out: seq<byte>, ghost trace: seq<Emitted>, ghost active: set<FileUnit>,
             ghost inHeap: set<nat>, ghost cursors: seq<Cursor>)
    requires |units| == |sources| && Linked(heap, units, active0, inHeap0, cursors0, sources, h) && heap.Len() > 0
    requires MergeInvariant(sources, h, cursors0, inHeap0, trace0)
    requires out0 == Output(Records(trace0))
    modifies heap, heap.data, units
    ensures heap.data == old(heap.data) || fresh(heap.data)
    ensures out == Output(Records(trace))
    ensures Pending(Lengths(sources, h), trace, |sources|) < Pending(Lengths(sources, h), trace0, |sources|)
    ensures err == Nil ==> Linked(heap, units, active, inHeap, cursors, sources, h)
    ensures err == Nil ==> MergeInvariant(sources, h, cursors, inHeap, trace)
    ensures err != Nil ==> MergedFrom(sources, h, trace, err)
  {
    var fu;
    fu, active := PopEarliest(heap, units, active0, inHeap0, cursors0, sources, h);
    ghost var i := fu.index;
    ghost var r := Record(fu.timestamp, fu.line);
    out := out0 + fu.line + [NEWLINE];
    OutputSnoc(Records(trace0), r);
    RecordsSnoc(trace0, Emitted(i, r));
    trace := trace0 + [Emitted(i, r)];
    StepShrinks(sources, h, cursors0, inHeap0, trace0, i);
    err, cursors := AdvanceCursor(heap, fu, units, active, inHeap0 - {i}, cursors0, sources, h);
    if err != Nil {
      StepFails(sources, h, cursors0, inHeap0, trace0, i);
      return err, out, trace, active, inHeap0, cursors;
    }
    StepKeeps(sources, h, cursors0, inHeap0, trace0, i);
    active, inHeap := Reinsert(heap, fu, units, active, inHeap0 - {i}, cursors, sources, h);
    if !fu.eof {
      PutBack(inHeap0, i);
    }
  }

  /** `Merge`: prime every file, then create the output and write the merged lines.
      `createErr` is what `os.Create` returns for the output file; `created` says
      whether the output exists afterwards, and `out` is what was written to it.
      A priming error is returned before the output is created, so nothing is written;
      otherwise the output holds exactly the merged trace, clean or cut short by the
      first failing `readLine`. */
  method Merge(sources: seq<Source>, createErr: Error, getTime: TimeHandler)
    returns (err: Error, created: bool, out: seq<byte>, ghost trace: seq<Emitted>)
    ensures PrimeError(sources, getTime) != Nil ==>
      err == PrimeError(sources, getTime) && !created && out == []
    ensures PrimeError(sources, getTime) == Nil && createErr != Nil ==>
      err == createErr && !created && out == []
    ensures PrimeError(sources, getTime) == Nil && createErr == Nil ==>
      created && out == Output(Records(trace)) && MergedFrom(sources, getTime, trace, err)
  {
    created, out, trace := false, [], [];
    var heap;
    ghost var units, active, inHeap, cursors;
    err, heap, units, active, inHeap, cursors := Prime(sources, getTime);
    if err != Nil {
      return;
    }
    if createErr != Nil {
      return createErr, false, [], [];
    }
    created := true;
    while heap.Len() > 0
      invariant fresh(heap) && fresh(heap.data)
      invariant |units| == |sources| && forall i :: 0 <= i < |units| ==> fresh(units[i])
      invariant Linked(heap, units, active, inHeap, cursors, sources, getTime)
      invariant MergeInvariant(sources, getTime, cursors, inHeap, trace)
      invariant out == Output(Records(trace))
      decreases Pending(Lengths(sources, getTime), trace, |sources|)
    {
      var e;
      e, out, trace, active, inHeap, cursors := Round(heap, units, active, inHeap, cursors, sources, getTime, out, trace);
      if e != Nil {
        return e, created, out, trace;
      }
    }
    assert active == {} by {
      assert multiset(active) == multiset{};
    }
    assert inHeap == {};
    Finish(sources, getTime, cursors, trace);
  }
}
