/** The string scanner and the string list (emulator.cpp). */
module Scanner {
  import opened Engine
  import opened Strings

  /** A found string: where execution was, where the text was, and the text. */
  datatype Found = Found(rip: nat, ptr: nat, text: seq<byte>)

  /** The string list, keyed by the text that equality and hash look at. */
  type StringList = map<seq<byte>, Found>

  datatype Run = Run(start: nat, end: nat)

  /** A maximal run of at least four printable bytes with a NUL right after it, all inside the buffer. */
  ghost predicate Qualifies(buffer: seq<byte>, r: Run) {
    && r.start + 4 <= r.end < |buffer|
    && (forall k :: r.start <= k < r.end ==> IsAsciiPrintable(buffer[k]))
    && buffer[r.end] == 0
    && (r.start == 0 || !IsAsciiPrintable(buffer[r.start - 1]))
  }

  ghost predicate InOrder(runs: seq<Run>) {
    forall i, j :: 0 <= i < j < |runs| ==> runs[i].end < runs[j].start
  }

  /** runs lists exactly the qualifying runs of the buffer, in order. */
  ghost predicate AreTheRuns(buffer: seq<byte>, runs: seq<Run>) {
    InOrder(runs) && forall r :: r in runs <==> Qualifies(buffer, r)
  }

  /** emulator::push_string: the first entry for a text stays. */
  function Push(strings: StringList, rip: nat, ptr: nat, text: seq<byte>): StringList {
    var t := Normal(text);
    if t == [] || t in strings then strings else strings[t := Found(rip, ptr, t)]
  }

  function PushRuns(strings: StringList, rip: nat, base: nat, buffer: seq<byte>, runs: seq<Run>): StringList
    requires forall r :: r in runs ==> r.start <= r.end <= |buffer|
  {
    if runs == [] then strings
    else
      var r := runs[|runs| - 1];
      assert r in runs;
      Push(PushRuns(strings, rip, base, buffer, runs[..|runs| - 1]), rip, base + r.start, buffer[r.start..r.end])
  }

  // ----- The scan loop

  /** The scan has reached i: everything that starts before i is in runs. */
  ghost predicate Scanned(buffer: seq<byte>, runs: seq<Run>, i: nat) {
    && i <= |buffer| + 1
    && (0 < i <= |buffer| ==> !IsAsciiPrintable(buffer[i - 1]))
    && InOrder(runs)
    && (forall r :: r in runs ==> r.end < i)
    && forall r :: r in runs <==> Qualifies(buffer, r) && r.start < i
  }

  ghost predicate PrintableFrom(buffer: seq<byte>, i: nat, end: nat) {
    i <= end <= |buffer| && forall k :: i <= k < end ==> IsAsciiPrintable(buffer[k])
  }

  lemma ScanStarts(buffer: seq<byte>)
    ensures Scanned(buffer, [], 0)
  {
  }

  lemma ScanSkips(buffer: seq<byte>, runs: seq<Run>, i: nat)
    requires Scanned(buffer, runs, i) && i < |buffer| && !IsAsciiPrintable(buffer[i])
    ensures Scanned(buffer, runs, i + 1)
  {
    forall r | Qualifies(buffer, r)
      ensures r.start != i
    {
      assert IsAsciiPrintable(buffer[r.start]);
    }
  }

  /** Past a run of printable bytes, only a run that starts right there can have been added. */
  lemma ScanPasses(buffer: seq<byte>, runs: seq<Run>, i: nat, end: nat)
    requires Scanned(buffer, runs, i) && i < end && PrintableFrom(buffer, i, end)
    requires end == |buffer| || !IsAsciiPrintable(buffer[end])
    ensures Scanned(buffer, if Qualifies(buffer, Run(i, end)) then runs + [Run(i, end)] else runs, end + 1)
  {
    forall r | Qualifies(buffer, r) && i <= r.start < end + 1
      ensures r == Run(i, end)
    {
      assert IsAsciiPrintable(buffer[r.start]);
    }
  }

  /** The test of the code is the definition of a qualifying run. */
  lemma RunAccepted(buffer: seq<byte>, runs: seq<Run>, i: nat, end: nat)
    requires Scanned(buffer, runs, i) && i < end && PrintableFrom(buffer, i, end)
    ensures Qualifies(buffer, Run(i, end)) <==> end - i >= 4 && end < |buffer| && buffer[end] == 0
  {
  }

  lemma ScanEnds(buffer: seq<byte>, runs: seq<Run>, i: nat)
    requires Scanned(buffer, runs, i) && i >= |buffer|
    ensures AreTheRuns(buffer, runs)
  {
  }

  lemma PushRunsGrows(strings: StringList, rip: nat, base: nat, buffer: seq<byte>, runs: seq<Run>, r: Run)
    requires forall q :: q in runs + [r] ==> q.start <= q.end <= |buffer|
    ensures (forall q :: q in runs ==> q.start <= q.end <= |buffer|) && r.start <= r.end <= |buffer|
    ensures PushRuns(strings, rip, base, buffer, runs + [r])
         == Push(PushRuns(strings, rip, base, buffer, runs), rip, base + r.start, buffer[r.start..r.end])
  {
    hide Push;
    assert forall q :: q in runs ==> q in runs + [r];
    assert r in runs + [r];
    assert (runs + [r])[..|runs|] == runs;
  }

  /** The string list after pushing the texts of the runs. */
  ghost predicate Pushed(before: StringList, after: StringList, rip: nat, base: nat, buffer: seq<byte>, runs: seq<Run>) {
    (forall r :: r in runs ==> r.start <= r.end <= |buffer|) && after == PushRuns(before, rip, base, buffer, runs)
  }

  lemma NothingPushed(strings: StringList, rip: nat, base: nat, buffer: seq<byte>)
    ensures Pushed(strings, strings, rip, base, buffer, [])
  {
  }

  lemma PushedOneMore(before: StringList, mid: StringList, rip: nat, base: nat, buffer: seq<byte>, runs: seq<Run>, r: Run)
    requires Pushed(before, mid, rip, base, buffer, runs) && r.start <= r.end <= |buffer|
    ensures Pushed(before, Push(mid, rip, base + r.start, buffer[r.start..r.end]), rip, base, buffer, runs + [r])
  {
    hide Push;
    PushRunsGrows(before, rip, base, buffer, runs, r);
  }

  class Detector {
    var strings: StringList

    constructor ()
      ensures strings == map[]
    {
      strings := map[];
    }

    method PushString(rip: nat, ptr: nat, text: seq<byte>)
      modifies this
      ensures strings == Push(old(strings), rip, ptr, text)
    {
      if text == [] {
        NothingLeftIff(text);
        return;
      }
      var str := EscapeControlChars(text);
      str := TrimInPlace(str);
      if str == [] {
        return;
      }
      if str !in strings {
        strings := strings[str := Found(rip, ptr, str)];
      }
    }

    /** Scans a buffer read from `base`; `runs` are the runs whose texts were pushed. */
    method ScanBufferForStrings(rip: nat, base: nat, buffer: seq<byte>) returns (ghost runs: seq<Run>)
      modifies this
      ensures AreTheRuns(buffer, runs)
      ensures Pushed(old(strings), strings, rip, base, buffer, runs)
    {
      hide *;
      runs := [];
      ScanStarts(buffer);
      NothingPushed(strings, rip, base, buffer);
      var i := 0;
      while i < |buffer|
        invariant Scanned(buffer, runs, i) && Pushed(old(strings), strings, rip, base, buffer, runs)
        decreases |buffer| + 1 - i
      {
        if IsAsciiPrintable(buffer[i]) {
          var end := FindEnd(buffer, i);
          ScanPasses(buffer, runs, i, end);
          RunAccepted(buffer, runs, i, end);
          if end - i >= 4 && end < |buffer| && buffer[end] == 0 {
            PushedOneMore(old(strings), strings, rip, base, buffer, runs, Run(i, end));
            PushString(rip, base + i, buffer[i..end]);
            runs := runs + [Run(i, end)];
          }
          i := end + 1;
          continue;
        }
        if i + 1 < |buffer| && IsUtf16Printable(U16(buffer[i], buffer[i + 1])) {
          // the scan for 16-bit characters cannot be reached: the low byte would have passed the test above
          Utf16ImpliesAscii(buffer[i], buffer[i + 1]);
          assert false;
        }
        ScanSkips(buffer, runs, i);
        i := i + 1;
      }
      ScanEnds(buffer, runs, i);
    }

    /** The inner loop of the scan: the end of the printable run at i. */
    static method FindEnd(buffer: seq<byte>, i: nat) returns (end: nat)
      requires i < |buffer| && IsAsciiPrintable(buffer[i])
      ensures i < end <= |buffer| && PrintableFrom(buffer, i, end)
      ensures end == |buffer| || !IsAsciiPrintable(buffer[end])
    {
      end := i;
      while end < |buffer| && IsAsciiPrintable(buffer[end])
        invariant PrintableFrom(buffer, i, end)
      {
        end := end + 1;
      }
    }
  }
}
