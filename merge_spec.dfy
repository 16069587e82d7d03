/** What `Merge` is specified to produce: the stream of records each input file yields
    under repeated `readLine`, the error priming stops at, and the relation between the
    merged output and those streams. */
module MergeSpec {
  import opened Types
  import opened FileUnits

  /** One entry of the file list: the path, whether `os.Open` fails on it, and the
      lines its scanner yields. */
  datatype Source = Source(path: string, openErr: Error, input: Input)

  /** A cursor's current line and timestamp, as `Merge` writes it out. */
  datatype Record = Record(timestamp: int64, line: Line)

  /** Everything a cursor yields from some state on: the records it holds after each
      successful `readLine`, and how the last `readLine` ended (`Nil` for end of input). */
  datatype Emission = Emission(records: seq<Record>, end: Error)

  /** A merged line tagged with the index of the file it came from. */
  datatype Emitted = Emitted(source: nat, record: Record)

  /** `readLine` repeated from cursor state `c` until it fails or reaches end of input.
      A STOP with a nil error leaves the held record in place, so it is yielded again. */
  function Drain(input: Input, h: TimeHandler, c: Cursor): (e: Emission)
    decreases |input.lines| - c.pos
  {
    var st := Read(input, h, c);
    if st.err != Nil then Emission([], st.err)
    else if st.cursor.eof then Emission([], Nil)
    else
      var rest := Drain(input, h, st.cursor);
      Emission([Record(st.cursor.timestamp, st.cursor.line)] + rest.records, rest.end)
  }

  /** The stream of one file, from a fresh cursor. */
  function Emissions(s: Source, h: TimeHandler): (e: Emission)
  {
    Drain(s.input, h, Initial)
  }

  /** The error priming meets on one file: opening it, or its first `readLine`. */
  function SourceError(s: Source, h: TimeHandler): (err: Error)
  {
    if s.openErr != Nil then s.openErr else Read(s.input, h, Initial).err
  }

  /** The error of the first file, in list order, on which priming fails; `Nil` if none. */
  function PrimeError(sources: seq<Source>, h: TimeHandler): (err: Error)
  {
    if sources == [] then Nil
    else if SourceError(sources[0], h) != Nil then SourceError(sources[0], h)
    else PrimeError(sources[1..], h)
  }

  /** Priming fails exactly on a file whose own error is not nil, and then with the
      error of the first such file. */
  lemma {:induction false} PrimeErrorAt(sources: seq<Source>, h: TimeHandler, k: nat)
    requires k <= |sources|
    requires forall i :: 0 <= i < k ==> SourceError(sources[i], h) == Nil
    ensures k == |sources| ==> PrimeError(sources, h) == Nil
    ensures k < |sources| && SourceError(sources[k], h) != Nil ==>
      PrimeError(sources, h) == SourceError(sources[k], h)
    decreases k
  {
    if k > 0 {
      PrimeErrorAt(sources[1..], h, k - 1);
    }
  }

  /** The records of a trace, in order. */
  function Records(t: seq<Emitted>): (rs: seq<Record>)
    ensures |rs| == |t| && forall k :: 0 <= k < |t| ==> rs[k] == t[k].record
  {
    if t == [] then [] else Records(t[..|t| - 1]) + [t[|t| - 1].record]
  }

  /** The records of a trace that came from file `i`, in order. */
  function Project(t: seq<Emitted>, i: nat): (rs: seq<Record>)
    ensures |rs| <= |t|
  {
    if t == [] then []
    else Project(t[..|t| - 1], i) + (if t[|t| - 1].source == i then [t[|t| - 1].record] else [])
  }

  /** Appending one entry to a trace extends exactly the projection of its file. */
  lemma ProjectSnoc(t: seq<Emitted>, e: Emitted, i: nat)
    ensures e.source == i ==> Project(t + [e], i) == Project(t, i) + [e.record]
    ensures e.source != i ==> Project(t + [e], i) == Project(t, i)
  {
    assert (t + [e])[..|t|] == t;
    assert Project(t, i) + [] == Project(t, i);
  }

  /** Appending one entry to a trace appends its record. */
  lemma RecordsSnoc(t: seq<Emitted>, e: Emitted)
    ensures Records(t + [e]) == Records(t) + [e.record]
  {
    assert (t + [e])[..|t|] == t;
  }

  /** What the output file holds after the given records are written: each line
      followed by a newline. */
  function Output(rs: seq<Record>): (out: seq<byte>)
    ensures |out| >= |rs|
  {
    if rs == [] then [] else Output(rs[..|rs| - 1]) + rs[|rs| - 1].line + [NEWLINE]
  }

  /** Writing one more record appends its line and a newline to the output. */
  lemma OutputSnoc(rs: seq<Record>, r: Record)
    ensures Output(rs + [r]) == Output(rs) + r.line + [NEWLINE]
  {
    assert (rs + [r])[..|rs|] == rs;
  }

  /** Records in order of non-decreasing timestamp. */
  ghost predicate SortedRecords(rs: seq<Record>)
  {
    forall a, b :: 0 <= a < b < |rs| ==> rs[a].timestamp <= rs[b].timestamp
  }

  /** Every file's stream is in timestamp order. */
  ghost predicate AllSorted(sources: seq<Source>, h: TimeHandler)
  {
    forall i :: 0 <= i < |sources| ==> SortedRecords(Emissions(sources[i], h).records)
  }

  /** Every entry of the trace names one of the files. */
  ghost predicate TagsValid(t: seq<Emitted>, n: nat)
  {
    forall k :: 0 <= k < |t| ==> t[k].source < n
  }

  /** No record a file yields after those of it the trace holds is earlier than the
      trace's last record: nothing was left out before the point where the trace stops. */
  ghost predicate NothingEarlierLeft(sources: seq<Source>, h: TimeHandler, t: seq<Emitted>)
  {
    t != [] ==>
      forall i, k :: 0 <= i < |sources| && |Project(t, i)| <= k < |Emissions(sources[i], h).records| ==>
        t[|t| - 1].record.timestamp <= Emissions(sources[i], h).records[k].timestamp
  }

  /** Only the file that wrote the trace's last record may have a stream ending in an
      error among those written in full: any other file whose whole stream the trace
      holds ended cleanly, so the merge stopped at the first failing advance. */
  ghost predicate OnlyLastFailed(sources: seq<Source>, h: TimeHandler, t: seq<Emitted>)
  {
    t != [] ==>
      forall i ::
        (0 <= i < |sources| && i != t[|t| - 1].source && Project(t, i) == Emissions(sources[i], h).records) ==>
        Emissions(sources[i], h).end == Nil
  }

  /** The outcome of the write-and-advance phase of `Merge`. With `err == Nil` every file
      was drained without error and each one's records appear in the trace exactly, in
      their own order. Otherwise some file `j` ended with `err` right after its last
      record was written, every file's records so far are a prefix of its stream, and
      every other file written in full ended cleanly. With all streams sorted, the trace is sorted, and after an error no record left
      unwritten is earlier than the last one written: the trace is a prefix of the
      timestamp-ordered merge of the streams. */
  ghost predicate MergedFrom(sources: seq<Source>, h: TimeHandler, t: seq<Emitted>, err: Error)
  {
    TagsValid(t, |sources|) &&
    (err == Nil ==>
      forall i :: 0 <= i < |sources| ==>
        Emissions(sources[i], h).end == Nil && Project(t, i) == Emissions(sources[i], h).records) &&
    (err != Nil ==>
      (exists j :: 0 <= j < |sources| && t != [] && t[|t| - 1].source == j &&
        Emissions(sources[j], h).end == err && Project(t, j) == Emissions(sources[j], h).records) &&
      (forall i :: 0 <= i < |sources| ==> Project(t, i) <= Emissions(sources[i], h).records) &&
      OnlyLastFailed(sources, h, t) &&
      (AllSorted(sources, h) ==> NothingEarlierLeft(sources, h, t))) &&
    (AllSorted(sources, h) ==> SortedRecords(Records(t)))
  }

  /** The sum over files `0 .. n-1` of the records a trace holds from each. */
  function ProjectedBag(t: seq<Emitted>, n: nat): (b: multiset<Record>)
  {
    if n == 0 then multiset{} else ProjectedBag(t, n - 1) + multiset(Project(t, n - 1))
  }

  /** The sum over files `0 .. n-1` of the records each one yields. */
  function EmittedBag(sources: seq<Source>, h: TimeHandler, n: nat): (b: multiset<Record>)
    requires n <= |sources|
  {
    if n == 0 then multiset{} else EmittedBag(sources, h, n - 1) + multiset(Emissions(sources[n - 1], h).records)
  }

  /** An entry of file `n` or later leaves the projected bag over `0 .. n-1` alone. */
  lemma {:induction false} ProjectedBagSame(t: seq<Emitted>, e: Emitted, n: nat)
    requires e.source >= n
    ensures ProjectedBag(t + [e], n) == ProjectedBag(t, n)
    decreases n
  {
    if n > 0 {
      ProjectedBagSame(t, e, n - 1);
      ProjectSnoc(t, e, n - 1);
      assert Project(t + [e], n - 1) == Project(t, n - 1);
    }
  }

  /** An entry of a file below `n` adds its record to the projected bag over `0 .. n-1`. */
  lemma {:induction false} ProjectedBagSnoc(t: seq<Emitted>, e: Emitted, n: nat)
    requires e.source < n
    ensures ProjectedBag(t + [e], n) == ProjectedBag(t, n) + multiset{e.record}
    decreases n
  {
    if e.source == n - 1 {
      ProjectedBagLast(t, e, n);
    } else {
      ProjectedBagSnoc(t, e, n - 1);
      ProjectSnoc(t, e, n - 1);
      assert Project(t + [e], n - 1) == Project(t, n - 1);
      BagShuffle(ProjectedBag(t, n - 1), multiset(Project(t, n - 1)), e.record);
    }
  }

  /** The case of `ProjectedBagSnoc` where the entry is of file `n-1`. */
  lemma ProjectedBagLast(t: seq<Emitted>, e: Emitted, n: nat)
    requires e.source == n - 1 && n > 0
    ensures ProjectedBag(t + [e], n) == ProjectedBag(t, n) + multiset{e.record}
  {
    ProjectedBagSame(t, e, n - 1);
    ProjectBagSnoc(t, e);
    assert multiset(Project(t + [e], n - 1)) == multiset(Project(t, n - 1)) + multiset{e.record};
  }

  /** Adding an element on the left or on the right of a sum of bags is the same. */
  lemma BagShuffle(a: multiset<Record>, b: multiset<Record>, r: Record)
    ensures (a + multiset{r}) + b == (a + b) + multiset{r}
  {
  }

  /** An entry adds its record to the bag of its own file's projection. */
  lemma ProjectBagSnoc(t: seq<Emitted>, e: Emitted)
    ensures multiset(Project(t + [e], e.source)) == multiset(Project(t, e.source)) + multiset{e.record}
  {
    ProjectSnoc(t, e, e.source);
  }

  /** When every entry names a file below `n`, the projections together hold exactly
      the trace's records. */
  lemma {:induction false} ProjectionsPartition(t: seq<Emitted>, n: nat)
    requires TagsValid(t, n)
    ensures multiset(Records(t)) == ProjectedBag(t, n)
    decreases |t|
  {
    if t != [] {
      var p := t[..|t| - 1];
      var e := t[|t| - 1];
      assert t == p + [e];
      assert e.source < n by {
        assert t[|t| - 1] == e;
      }
      ProjectionsPartition(p, n);
      ProjectedBagSnoc(p, e, n);
      RecordsSnoc(p, e);
      assert multiset(Records(t)) == multiset(Records(p)) + multiset{e.record};
    } else {
      NoEntriesEmptyBag(t, n);
    }
  }

  /** An empty trace projects to nothing. */
  lemma {:induction false} NoEntriesEmptyBag(t: seq<Emitted>, n: nat)
    requires t == []
    ensures ProjectedBag(t, n) == multiset{}
    decreases n
  {
    if n > 0 {
      NoEntriesEmptyBag(t, n - 1);
    }
  }

  /** Projections equal to the streams give equal bags, file by file. */
  lemma {:induction false} BagsAgree(sources: seq<Source>, h: TimeHandler, t: seq<Emitted>, n: nat)
    requires n <= |sources|
    requires forall i :: 0 <= i < n ==> Project(t, i) == Emissions(sources[i], h).records
    ensures ProjectedBag(t, n) == EmittedBag(sources, h, n)
    decreases n
  {
    if n > 0 {
      BagsAgree(sources, h, t, n - 1);
    }
  }

  /** After a clean merge the output holds every record of every file, each exactly as
      often as its file yields it: the merged records are a permutation of all streams. */
  lemma MergePermutes(sources: seq<Source>, h: TimeHandler, t: seq<Emitted>)
    requires MergedFrom(sources, h, t, Nil)
    ensures multiset(Records(t)) == EmittedBag(sources, h, |sources|)
  {
    ProjectionsPartition(t, |sources|);
    BagsAgree(sources, h, t, |sources|);
  }

  /** When no file but `j` has entries in the trace, the trace's records are `j`'s. */
  lemma {:induction false} OnlyOneSource(t: seq<Emitted>, n: nat, j: nat)
    requires TagsValid(t, n)
    requires forall i :: 0 <= i < n && i != j ==> Project(t, i) == []
    ensures Records(t) == Project(t, j)
    decreases |t|
  {
    if t != [] {
      var p := t[..|t| - 1];
      var e := t[|t| - 1];
      assert t == p + [e];
      forall i | 0 <= i < n && i != j
        ensures Project(p, i) == []
      {
        ProjectSnoc(p, e, i);
      }
      OnlyOneSource(p, n, j);
      ProjectSnoc(p, e, j);
      ProjectSnoc(p, e, e.source);
      RecordsSnoc(p, e);
    }
  }

  /** Files that yield no records add nothing to the bag of all records. */
  lemma {:induction false} NoRecordsEmptyBag(sources: seq<Source>, h: TimeHandler, n: nat)
    requires n <= |sources|
    requires forall i :: 0 <= i < n ==> Emissions(sources[i], h).records == []
    ensures EmittedBag(sources, h, n) == multiset{}
    decreases n
  {
    if n > 0 {
      NoRecordsEmptyBag(sources, h, n - 1);
    }
  }

  /** When every file yields nothing and ends cleanly, a clean merge has an empty trace
      and writes nothing. */
  lemma NothingToMerge(sources: seq<Source>, h: TimeHandler, t: seq<Emitted>)
    requires forall i :: 0 <= i < |sources| ==> Emissions(sources[i], h).records == []
    requires MergedFrom(sources, h, t, Nil)
    ensures t == [] && Output(Records(t)) == []
  {
    MergePermutes(sources, h, t);
    NoRecordsEmptyBag(sources, h, |sources|);
    assert |multiset(Records(t))| == |Records(t)|;
  }
}
