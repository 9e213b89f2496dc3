/** What rotation keeps of the log, how large files get, and when the sink's idea of the current size is right. */
module RotationTheorems {
  import opened FileHelpers
  import opened RotatingFileSinks

  /** What a file name stands for on the disk. */
  datatype Slot = Missing | File(content: Bytes)

  function SlotOf(files: Files, name: string): Slot {
    if name in files then File(files[name]) else Missing
  }

  /** The files of one log, newest first. */
  function View(files: Files, base: string, maxFiles: nat): (v: seq<Slot>)
    ensures |v| == maxFiles + 1
  {
    seq(maxFiles + 1, k requires k >= 0 => SlotOf(files, CalcFilename(base, k)))
  }

  function Text(s: Slot): Bytes {
    if s.File? then s.content else []
  }

  /** The contents of files listed newest first, read oldest first. */
  function Join(v: seq<Slot>): Bytes {
    if v == [] then [] else Join(v[1..]) + Text(v[0])
  }

  /** The whole log: the oldest file, ..., the file `1`, the current file. */
  function WholeLog(files: Files, base: string, maxFiles: nat): Bytes {
    Join(View(files, base, maxFiles))
  }

  lemma JoinFirst(v: seq<Slot>)
    requires v != []
    ensures Join(v) == Join(v[1..]) + Text(v[0])
  {
  }

  lemma {:induction false} JoinOfSum(a: seq<Slot>, b: seq<Slot>)
    ensures Join(a + b) == Join(b) + Join(a)
  {
    hide Join;
    if a == [] {
      assert a + b == b;
      JoinOfNone();
      assert Join(b) + [] == Join(b);
    } else {
      JoinOfSum(a[1..], b);
      assert (a + b)[1..] == a[1..] + b;
      JoinFirst(a + b);
      JoinFirst(a);
      var x, y, z := Join(b), Join(a[1..]), Text(a[0]);
      assert x + y + z == x + (y + z);
    }
  }

  lemma JoinOfNone()
    ensures Join([]) == []
  {
  }

  lemma JoinOfOne(s: Slot)
    ensures Join([s]) == Text(s)
  {
    assert [s][1..] == [];
  }

  // ---- one rotation ----

  function Shift(v: seq<Slot>, i: nat): (r: seq<Slot>)
    requires 0 < i < |v|
    ensures |r| == |v|
  {
    if v[i - 1].File? then v[i := v[i - 1]][i - 1 := Missing] else v
  }

  function ShiftAll(v: seq<Slot>, i: nat): (r: seq<Slot>)
    requires i < |v|
    ensures |r| == |v|
    decreases i
  {
    if i == 0 then v else ShiftAll(Shift(v, i), i - 1)
  }

  lemma ViewOfShift(files: Files, base: string, maxFiles: nat, i: nat)
    requires 0 < i <= maxFiles
    ensures View(ShiftFile(files, base, i), base, maxFiles) == Shift(View(files, base, maxFiles), i)
  {
    hide CalcFilename;
    var v, w := View(ShiftFile(files, base, i), base, maxFiles), Shift(View(files, base, maxFiles), i);
    forall k | 0 <= k < |v|
      ensures v[k] == w[k]
    {
      if CalcFilename(base, k) == CalcFilename(base, i) {
        CalcFilenameInjective(base, k, i);
      }
      if CalcFilename(base, k) == CalcFilename(base, i - 1) {
        CalcFilenameInjective(base, k, i - 1);
      }
    }
  }

  lemma {:induction false} ViewOfShifts(files: Files, base: string, maxFiles: nat, i: nat)
    requires i <= maxFiles
    ensures View(ShiftFiles(files, base, i), base, maxFiles) == ShiftAll(View(files, base, maxFiles), i)
    decreases i
  {
    hide CalcFilename, ShiftFile, Shift, View;
    if i != 0 {
      ViewOfShift(files, base, maxFiles, i);
      ViewOfShifts(ShiftFile(files, base, i), base, maxFiles, i - 1);
    }
  }

  lemma ViewOfUpdate(files: Files, base: string, maxFiles: nat, content: Bytes)
    ensures View(files[base := content], base, maxFiles) == View(files, base, maxFiles)[0 := File(content)]
  {
    hide CalcFilename;
    assert CalcFilename(base, 0) == base by {
      NameOfCurrent(base);
    }
    var v, w := View(files[base := content], base, maxFiles), View(files, base, maxFiles)[0 := File(content)];
    forall k | 0 <= k < |v|
      ensures v[k] == w[k]
    {
      if CalcFilename(base, k) == CalcFilename(base, 0) {
        CalcFilenameInjective(base, k, 0);
      }
    }
  }

  lemma NameOfCurrent(base: string)
    ensures CalcFilename(base, 0) == base
  {
  }

  lemma ShiftKeepsJoin(v: seq<Slot>, i: nat)
    requires 0 < i < |v| && v[i] == Missing
    ensures Join(Shift(v, i)) == Join(v)
    ensures Shift(v, i)[i - 1] == Missing
  {
    hide Join;
    var r := Shift(v, i);
    JoinAround(v, i);
    JoinAround(r, i);
    assert r[..i - 1] == v[..i - 1] && r[i + 1..] == v[i + 1..];
    assert Text(v[i]) + Text(v[i - 1]) == Text(r[i]) + Text(r[i - 1]);
  }

  lemma JoinAround(v: seq<Slot>, i: nat)
    requires 0 < i < |v|
    ensures Join(v) == Join(v[i + 1..]) + (Text(v[i]) + Text(v[i - 1])) + Join(v[..i - 1])
  {
    hide Join, Text;
    var newer, pair, older := v[..i - 1], [v[i - 1], v[i]], v[i + 1..];
    SplitAround(v, i);
    PairJoin(v[i - 1], v[i]);
    JoinOfThree(newer, pair, older);
  }

  lemma SplitAround(v: seq<Slot>, i: nat)
    requires 0 < i < |v|
    ensures v == v[..i - 1] + [v[i - 1], v[i]] + v[i + 1..]
  {
  }

  lemma JoinOfThree(a: seq<Slot>, b: seq<Slot>, c: seq<Slot>)
    ensures Join(a + b + c) == Join(c) + Join(b) + Join(a)
  {
    hide Join;
    JoinOfSum(a, b);
    JoinOfSum(a + b, c);
    var x, y, z := Join(c), Join(b), Join(a);
    assert x + (y + z) == x + y + z;
  }

  lemma PairJoin(a: Slot, b: Slot)
    ensures Join([a, b]) == Text(b) + Text(a)
  {
    hide Join, Text;
    assert [a, b] == [a] + [b];
    JoinOfSum([a], [b]);
    JoinOfOne(a);
    JoinOfOne(b);
  }

  /** Once there is a free slot to move into, no step of the loop loses anything, gaps or not. */
  lemma {:induction false} ShiftAllKeepsJoin(v: seq<Slot>, i: nat)
    requires i < |v| && v[i] == Missing
    ensures Join(ShiftAll(v, i)) == Join(v)
    ensures ShiftAll(v, i)[0] == Missing
    decreases i
  {
    hide Shift, Join;
    if i != 0 {
      ShiftKeepsJoin(v, i);
      ShiftAllKeepsJoin(Shift(v, i), i - 1);
    }
  }

  function RotatedView(v: seq<Slot>): seq<Slot>
    requires v != []
  {
    ShiftAll(v, |v| - 1)[0 := File([])]
  }

  /** What a rotation loses: the oldest file, if another one takes its name. */
  function Overwritten(v: seq<Slot>): Bytes
    requires v != []
  {
    if |v| == 1 || v[|v| - 2].File? then Text(v[|v| - 1]) else []
  }

  lemma JoinWithFirst(v: seq<Slot>, s: Slot)
    requires v != [] && Text(v[0]) == Text(s)
    ensures Join(v[0 := s]) == Join(v)
  {
    assert v[0 := s][1..] == v[1..];
  }

  lemma JoinWithoutLast(v: seq<Slot>)
    requires v != []
    ensures Join(v) == Text(v[|v| - 1]) + Join(v[|v| - 1 := Missing])
  {
    hide Join;
    var n := |v| - 1;
    assert v == v[..n] + [v[n]] && v[n := Missing] == v[..n] + [Missing];
    JoinOfSum(v[..n], [v[n]]);
    JoinOfSum(v[..n], [Missing]);
    JoinOfOne(v[n]);
    JoinOfOne(Missing);
    assert [] + Join(v[..n]) == Join(v[..n]);
  }

  lemma RotatedJoin(v: seq<Slot>)
    requires v != []
    ensures Join(v) == Overwritten(v) + Join(RotatedView(v))
  {
    hide Join, Shift;
    var n := |v| - 1;
    if n == 0 {
      JoinWithoutLast(v);
      JoinWithFirst(v[0 := Missing], File([]));
      assert v[0 := Missing][0 := File([])] == RotatedView(v);
    } else if v[n - 1].File? {
      var w := v[n := Missing];
      JoinWithoutLast(v);
      ShiftOverwrites(v, n);
      ShiftAllKeepsJoin(w, n);
      assert ShiftAll(v, n) == ShiftAll(w, n);
      JoinWithFirst(ShiftAll(v, n), File([]));
    } else {
      ShiftSkips(v, n);
      ShiftAllKeepsJoin(v, n - 1);
      JoinWithFirst(ShiftAll(v, n), File([]));
      assert [] + Join(v) == Join(v);
    }
  }

  lemma ShiftOverwrites(v: seq<Slot>, n: nat)
    requires 0 < n < |v| && v[n - 1].File?
    ensures Shift(v, n) == Shift(v[n := Missing], n)
  {
  }

  lemma ShiftSkips(v: seq<Slot>, n: nat)
    requires 0 < n < |v| && v[n - 1] == Missing
    ensures Shift(v, n) == v
  {
  }

  /** What a rotation of these files drops: the oldest one, if its name is needed. */
  function Dropped(files: Files, base: string, maxFiles: nat): Bytes {
    if maxFiles == 0 || CalcFilename(base, maxFiles - 1) in files
    then Text(SlotOf(files, CalcFilename(base, maxFiles))) else []
  }

  /**
  A rotation drops the oldest file exactly when its name is needed, which a gap before it prevents, and keeps all the rest
  of the log in order.
  */
  lemma RotationDropsOnlyTheOldest(files: Files, base: string, maxFiles: nat)
    ensures WholeLog(files, base, maxFiles) ==
            Dropped(files, base, maxFiles) + WholeLog(Rotated(files, base, maxFiles), base, maxFiles)
  {
    hide Join, CalcFilename;
    ViewOfRotated(files, base, maxFiles);
    RotatedJoin(View(files, base, maxFiles));
  }

  lemma ViewOfRotated(files: Files, base: string, maxFiles: nat)
    ensures View(Rotated(files, base, maxFiles), base, maxFiles) == RotatedView(View(files, base, maxFiles))
  {
    hide View;
    ViewOfShifts(files, base, maxFiles, maxFiles);
    ViewOfUpdate(ShiftFiles(files, base, maxFiles), base, maxFiles, []);
  }

  // ---- whole runs ----

  function Concat(records: seq<Bytes>): Bytes {
    if records == [] then [] else records[0] + Concat(records[1..])
  }

  predicate IsSuffix(s: Bytes, t: Bytes) {
    |s| <= |t| && t[|t| - |s|..] == s
  }

  lemma SuffixOfSum(lost: Bytes, s: Bytes)
    ensures IsSuffix(s, lost + s)
  {
  }

  function LogOf(s: Sink): Bytes {
    WholeLog(s.files, s.base, s.maxFiles)
  }

  lemma AppendToLog(files: Files, base: string, maxFiles: nat, data: Bytes)
    requires base in files
    ensures WholeLog(Appended(files, base, data), base, maxFiles) == WholeLog(files, base, maxFiles) + data
  {
    hide Join, CalcFilename;
    var v := View(files, base, maxFiles);
    NameOfCurrent(base);
    ViewOfUpdate(files, base, maxFiles, files[base] + data);
    var w := v[0 := File(files[base] + data)];
    JoinFirst(v);
    JoinFirst(w);
    assert w[1..] == v[1..];
    assert Join(v[1..]) + (files[base] + data) == Join(v[1..]) + files[base] + data;
  }

  lemma RotatedHasCurrent(files: Files, base: string, maxFiles: nat)
    ensures base in Rotated(files, base, maxFiles) && Rotated(files, base, maxFiles)[base] == []
  {
  }

  predicate Rotates(s: Sink, record: Bytes) {
    s.currentSize + |record| > s.maxSize
  }

  /** What the rotations of a run drop, in order. */
  function DroppedBy(s: Sink, records: seq<Bytes>): Bytes
    requires Ready(s)
    decreases |records|
  {
    if records == [] then []
    else
      (if Rotates(s, records[0]) then Dropped(s.files, s.base, s.maxFiles) else [])
      + DroppedBy(SinkIt(s, records[0]), records[1..])
  }

  /** Writing one record appends it to the log, which otherwise only loses what a rotation drops. */
  lemma SinkItAppends(s: Sink, record: Bytes)
    requires Ready(s)
    ensures LogOf(s) + record ==
            (if Rotates(s, record) then Dropped(s.files, s.base, s.maxFiles) else []) + LogOf(SinkIt(s, record))
  {
    hide WholeLog, Rotated, Appended, CalcFilename, Dropped;
    if Rotates(s, record) {
      var rotated := Rotated(s.files, s.base, s.maxFiles);
      RotatedHasCurrent(s.files, s.base, s.maxFiles);
      AppendToLog(rotated, s.base, s.maxFiles, record);
      RotationDropsOnlyTheOldest(s.files, s.base, s.maxFiles);
      var lost, kept := Dropped(s.files, s.base, s.maxFiles), WholeLog(rotated, s.base, s.maxFiles);
      assert lost + kept + record == lost + (kept + record);
    } else {
      AppendToLog(s.files, s.base, s.maxFiles, record);
      assert [] + LogOf(SinkIt(s, record)) == LogOf(SinkIt(s, record));
    }
  }

  /** In every run the log and everything written is what the rotations dropped, followed by the log that is left. */
  lemma {:induction false} SinkAllAppends(s: Sink, records: seq<Bytes>)
    requires Ready(s)
    ensures LogOf(s) + Concat(records) == DroppedBy(s, records) + LogOf(SinkAll(s, records))
    decreases |records|
  {
    hide LogOf, SinkIt, Dropped, Rotates;
    if records == [] {
      assert LogOf(s) + [] == [] + LogOf(s);
    } else {
      var next := SinkIt(s, records[0]);
      SinkItAppends(s, records[0]);
      SinkAllAppends(next, records[1..]);
      var lost := if Rotates(s, records[0]) then Dropped(s.files, s.base, s.maxFiles) else [];
      var more, rest, left := DroppedBy(next, records[1..]), Concat(records[1..]), LogOf(SinkAll(next, records[1..]));
      FourParts(LogOf(s), records[0], rest, lost, LogOf(next), more, left);
    }
  }

  lemma FourParts(a: Bytes, r: Bytes, rest: Bytes, lost: Bytes, next: Bytes, more: Bytes, left: Bytes)
    requires a + r == lost + next && next + rest == more + left
    ensures a + (r + rest) == lost + more + left
  {
    assert a + (r + rest) == a + r + rest == lost + (next + rest);
    assert lost + (more + left) == lost + more + left;
  }

  // ---- how long nothing is dropped ----

  function Rotations(s: Sink, records: seq<Bytes>): nat
    requires Ready(s)
    decreases |records|
  {
    if records == [] then 0
    else (if Rotates(s, records[0]) then 1 else 0) + Rotations(SinkIt(s, records[0]), records[1..])
  }

  /** Only the current file and the files up to `n` exist. */
  ghost predicate UpTo(v: seq<Slot>, n: nat) {
    forall k :: n < k < |v| ==> v[k] == Missing
  }

  lemma {:induction false} ShiftAllUpTo(v: seq<Slot>, i: nat, n: nat)
    requires i < |v| && UpTo(v, n)
    ensures i > n ==> UpTo(ShiftAll(v, i), n + 1)
    ensures i <= n ==> UpTo(ShiftAll(v, i), n)
    decreases i
  {
    if i != 0 {
      if i > n + 1 {
        assert Shift(v, i) == v;
        ShiftAllUpTo(v, i - 1, n);
      } else if i == n + 1 {
        assert UpTo(Shift(v, i), n + 1);
        ShiftAllUpTo(Shift(v, i), i - 1, n + 1);
      } else {
        ShiftAllUpTo(Shift(v, i), i - 1, n);
      }
    }
  }

  lemma ViewUpTo(s: Sink, record: Bytes, n: nat)
    requires Ready(s) && UpTo(View(s.files, s.base, s.maxFiles), n)
    ensures UpTo(View(SinkIt(s, record).files, s.base, s.maxFiles), if Rotates(s, record) then n + 1 else n)
  {
    hide View, Rotated, ShiftAll;
    var before := if Rotates(s, record) then Rotated(s.files, s.base, s.maxFiles) else s.files;
    if Rotates(s, record) {
      RotatedHasCurrent(s.files, s.base, s.maxFiles);
      ViewOfRotated(s.files, s.base, s.maxFiles);
      ShiftAllUpTo(View(s.files, s.base, s.maxFiles), s.maxFiles, n);
    }
    ViewOfUpdate(before, s.base, s.maxFiles, before[s.base] + record);
  }

  lemma NothingToDrop(s: Sink, n: nat)
    requires Ready(s) && UpTo(View(s.files, s.base, s.maxFiles), n) && n < s.maxFiles
    ensures Dropped(s.files, s.base, s.maxFiles) == []
  {
    hide CalcFilename;
    assert View(s.files, s.base, s.maxFiles)[s.maxFiles] == Missing;
  }

  /** With the files up to `n` in use, as many rotations as there are names left drop nothing: everything is still there. */
  lemma {:induction false} NothingDroppedEarly(s: Sink, records: seq<Bytes>, n: nat)
    requires Ready(s) && UpTo(View(s.files, s.base, s.maxFiles), n) && n + Rotations(s, records) <= s.maxFiles
    ensures DroppedBy(s, records) == []
    ensures LogOf(SinkAll(s, records)) == LogOf(s) + Concat(records)
    decreases |records|
  {
    hide View, SinkIt, Rotates, Dropped, LogOf;
    SinkAllAppends(s, records);
    if records == [] {
      assert LogOf(s) + [] == LogOf(s);
    } else {
      ViewUpTo(s, records[0], n);
      SettingsStay(s, records[0]);
      if Rotates(s, records[0]) {
        NothingToDrop(s, n);
        NothingDroppedEarly(SinkIt(s, records[0]), records[1..], n + 1);
      } else {
        NothingDroppedEarly(SinkIt(s, records[0]), records[1..], n);
      }
      assert [] + LogOf(SinkAll(s, records)) == LogOf(SinkAll(s, records));
    }
  }

  lemma SettingsStay(s: Sink, record: Bytes)
    requires Ready(s)
    ensures var r := SinkIt(s, record); r.base == s.base && r.maxSize == s.maxSize && r.maxFiles == s.maxFiles
  {
  }

  lemma OpenedLog(files: Files, base: string, maxFiles: nat)
    ensures WholeLog(Opened(files, base, false), base, maxFiles) == WholeLog(files, base, maxFiles)
  {
    hide Join, CalcFilename;
    if base !in files {
      NameOfCurrent(base);
      ViewOfUpdate(files, base, maxFiles, []);
      JoinWithFirst(View(files, base, maxFiles), File([]));
    }
  }

  /** What opening the sink drops. */
  function DroppedOnOpen(base: string, maxFiles: nat, rotateOnOpen: bool, files: Files): Bytes {
    if rotateOnOpen && base in files && files[base] != [] then Dropped(files, base, maxFiles) else []
  }

  lemma OpeningDrops(base: string, maxSize: nat, maxFiles: nat, rotateOnOpen: bool, files: Files)
    ensures WholeLog(files, base, maxFiles) ==
            DroppedOnOpen(base, maxFiles, rotateOnOpen, files) + LogOf(OpenSink(base, maxSize, maxFiles, rotateOnOpen, files))
  {
    hide WholeLog, Rotated, Dropped;
    var s := OpenSink(base, maxSize, maxFiles, rotateOnOpen, files);
    OpenedLog(files, base, maxFiles);
    RotationDropsOnlyTheOldest(files, base, maxFiles);
    assert [] + LogOf(s) == LogOf(s);
  }

  /**
  From any files at all, after any records: what the log files held at first followed by everything written is what the
  rotations dropped followed by what the log files hold. So the log, oldest file first, is always a suffix.
  */
  lemma LogIsSuffixOfWritten(base: string, maxSize: nat, maxFiles: nat, rotateOnOpen: bool, files: Files, records: seq<Bytes>)
    ensures var s := OpenSink(base, maxSize, maxFiles, rotateOnOpen, files);
            var all, log := WholeLog(files, base, maxFiles) + Concat(records), LogOf(SinkAll(s, records));
            && all == DroppedOnOpen(base, maxFiles, rotateOnOpen, files) + DroppedBy(s, records) + log
            && IsSuffix(log, all)
  {
    hide WholeLog, LogOf, Concat, OpenSink, SinkAll, DroppedBy, DroppedOnOpen;
    var s := OpenSink(base, maxSize, maxFiles, rotateOnOpen, files);
    OpeningDrops(base, maxSize, maxFiles, rotateOnOpen, files);
    SinkAllAppends(s, records);
    var first, more, log := DroppedOnOpen(base, maxFiles, rotateOnOpen, files), DroppedBy(s, records), LogOf(SinkAll(s, records));
    assert first + LogOf(s) + Concat(records) == first + (LogOf(s) + Concat(records));
    assert first + (more + log) == first + more + log;
    SuffixOfSum(first + more, log);
  }

  // ---- file sizes ----

  ghost predicate SlotOk(s: Slot, maxSize: nat, records: seq<Bytes>) {
    s.File? ==> |s.content| <= maxSize || s.content in records
  }

  /** Every file of the log is within the size limit or is one single record. */
  ghost predicate FilesOk(v: seq<Slot>, maxSize: nat, records: seq<Bytes>) {
    forall k :: 0 <= k < |v| ==> SlotOk(v[k], maxSize, records)
  }

  lemma {:induction false} ShiftAllKeepsOk(v: seq<Slot>, i: nat, maxSize: nat, records: seq<Bytes>)
    requires i < |v| && FilesOk(v, maxSize, records)
    ensures FilesOk(ShiftAll(v, i), maxSize, records)
    decreases i
  {
    if i != 0 {
      ShiftAllKeepsOk(Shift(v, i), i - 1, maxSize, records);
    }
  }

  lemma RotatedKeepsOk(files: Files, base: string, maxFiles: nat, maxSize: nat, records: seq<Bytes>)
    requires FilesOk(View(files, base, maxFiles), maxSize, records)
    ensures FilesOk(View(Rotated(files, base, maxFiles), base, maxFiles), maxSize, records)
  {
    hide View;
    var v := View(files, base, maxFiles);
    ViewOfRotated(files, base, maxFiles);
    ShiftAllKeepsOk(v, maxFiles, maxSize, records);
  }

  /** The sink never believes the current file to be smaller than it is. */
  ghost predicate SizeInv(s: Sink, records: seq<Bytes>) {
    Ready(s) && |s.files[s.base]| <= s.currentSize && FilesOk(View(s.files, s.base, s.maxFiles), s.maxSize, records)
  }

  lemma SinkItKeepsSizes(s: Sink, records: seq<Bytes>, record: Bytes)
    requires SizeInv(s, records)
    ensures SizeInv(SinkIt(s, record), records + [record])
  {
    hide View, Rotated;
    var all := records + [record];
    assert record == all[|records|];
    assert FilesOk(View(s.files, s.base, s.maxFiles), s.maxSize, all) by {
      assert forall r :: r in records ==> r in all;
    }
    var before := if s.currentSize + |record| > s.maxSize then Rotated(s.files, s.base, s.maxFiles) else s.files;
    if s.currentSize + |record| > s.maxSize {
      RotatedKeepsOk(s.files, s.base, s.maxFiles, s.maxSize, all);
      RotatedHasCurrent(s.files, s.base, s.maxFiles);
      assert [] + record == record;
    }
    ViewOfUpdate(before, s.base, s.maxFiles, before[s.base] + record);
  }

  lemma {:induction false} SinkAllKeepsSizes(s: Sink, records: seq<Bytes>, more: seq<Bytes>)
    requires SizeInv(s, records)
    ensures SizeInv(SinkAll(s, more), records + more)
    decreases |more|
  {
    hide View, FilesOk, SinkIt;
    if more == [] {
      assert records + more == records;
    } else {
      SinkItKeepsSizes(s, records, more[0]);
      SinkAllKeepsSizes(SinkIt(s, more[0]), records + [more[0]], more[1..]);
      assert records + [more[0]] + more[1..] == records + more;
    }
  }

  /** With no log file too large at the start, no log file is ever larger than the limit unless it is one single record. */
  lemma FilesStaySmall(base: string, maxSize: nat, maxFiles: nat, rotateOnOpen: bool, files: Files, records: seq<Bytes>)
    requires FilesOk(View(files, base, maxFiles), maxSize, [])
    ensures FilesOk(View(SinkAll(OpenSink(base, maxSize, maxFiles, rotateOnOpen, files), records).files, base, maxFiles),
                    maxSize, records)
  {
    hide View, Rotated, ShiftAll;
    var s := OpenSink(base, maxSize, maxFiles, rotateOnOpen, files);
    var present := Opened(files, base, false);
    if base !in files {
      ViewOfUpdate(files, base, maxFiles, []);
    }
    RotatedKeepsOk(present, base, maxFiles, maxSize, []);
    RotatedHasCurrent(present, base, maxFiles);
    SinkAllKeepsSizes(s, [], records);
    assert [] + records == records;
    SinkAllKeepsSettings(s, records);
  }

  lemma {:induction false} SinkAllKeepsSettings(s: Sink, records: seq<Bytes>)
    requires Ready(s)
    ensures var r := SinkAll(s, records); r.base == s.base && r.maxSize == s.maxSize && r.maxFiles == s.maxFiles
    decreases |records|
  {
    if records != [] {
      SinkAllKeepsSettings(SinkIt(s, records[0]), records[1..]);
    }
  }

  // ---- the sink's idea of the current size ----

  function Total(records: seq<Bytes>): nat {
    if records == [] then 0 else |records[0]| + Total(records[1..])
  }

  lemma SinkItSize(s: Sink, record: Bytes)
    requires Ready(s)
    ensures var r := SinkIt(s, record);
            && r.base == s.base && r.maxSize == s.maxSize
            && (s.currentSize + |record| > s.maxSize ==> r.currentSize == |record| == |r.files[r.base]|)
            && (s.currentSize + |record| <= s.maxSize ==> r.currentSize == s.currentSize + |record|
                                                          && |r.files[r.base]| == |s.files[s.base]| + |record|)
  {
    hide ShiftFiles;
  }

  /** A wrong idea of the size lasts until the first rotation, and a right one lasts for ever. */
  lemma {:induction false} SizeAfterRun(s: Sink, records: seq<Bytes>)
    requires Ready(s)
    ensures var r := SinkAll(s, records);
            r.currentSize == |r.files[r.base]| <==>
              s.currentSize == |s.files[s.base]| || (records != [] && s.currentSize + Total(records) > s.maxSize)
    decreases |records|
  {
    hide SinkIt;
    if records != [] {
      SinkItSize(s, records[0]);
      SizeAfterRun(SinkIt(s, records[0]), records[1..]);
    }
  }

  /**
  `current_size_` is the size of the current file after any run exactly unless the sink rotated a non-empty file when it was
  opened (which leaves the old size behind) and has not rotated since.
  */
  lemma SizeIsExactUnlessRotatedOnOpen(base: string, maxSize: nat, maxFiles: nat, rotateOnOpen: bool, files: Files,
                                       records: seq<Bytes>)
    ensures var s := SinkAll(OpenSink(base, maxSize, maxFiles, rotateOnOpen, files), records);
            var size := if base in files then |files[base]| else 0;
            s.currentSize == |s.files[s.base]| <==>
              !rotateOnOpen || size == 0 || (records != [] && size + Total(records) > maxSize)
  {
    hide ShiftFiles;
    SizeAfterRun(OpenSink(base, maxSize, maxFiles, rotateOnOpen, files), records);
  }

  /** A log of three bytes, rotated when it is opened: the new file is empty and the sink takes it to hold three bytes. */
  lemma StaleSizeAfterRotateOnOpen()
    ensures var s := OpenSink("log", 10, 1, true, map["log" := [1, 2, 3]]);
            s.currentSize == 3 && s.files["log"] == []
  {
  }

  // ---- the rest of the disk ----

  ghost predicate SameElsewhere(a: Files, b: Files, base: string, maxFiles: nat) {
    forall name: string :: (forall k :: 0 <= k <= maxFiles ==> CalcFilename(base, k) != name) ==> SlotOf(a, name) == SlotOf(b, name)
  }

  lemma {:induction false} ShiftFilesElsewhere(files: Files, base: string, i: nat, name: string)
    requires forall k :: 0 <= k <= i ==> CalcFilename(base, k) != name
    ensures SlotOf(ShiftFiles(files, base, i), name) == SlotOf(files, name)
    decreases i
  {
    hide CalcFilename;
    if i != 0 {
      ShiftFilesElsewhere(ShiftFile(files, base, i), base, i - 1, name);
    }
  }

  lemma SinkItElsewhere(s: Sink, record: Bytes)
    requires Ready(s)
    ensures SameElsewhere(SinkIt(s, record).files, s.files, s.base, s.maxFiles)
  {
    hide CalcFilename, ShiftFiles;
    NameOfCurrent(s.base);
    forall name: string | forall k :: 0 <= k <= s.maxFiles ==> CalcFilename(s.base, k) != name
      ensures SlotOf(SinkIt(s, record).files, name) == SlotOf(s.files, name)
    {
      assert CalcFilename(s.base, 0) != name;
      ShiftFilesElsewhere(s.files, s.base, s.maxFiles, name);
    }
  }

  /** No file but those of the log is touched. */
  lemma {:induction false} SinkAllElsewhere(s: Sink, records: seq<Bytes>)
    requires Ready(s)
    ensures SameElsewhere(SinkAll(s, records).files, s.files, s.base, s.maxFiles)
    decreases |records|
  {
    hide CalcFilename, SlotOf;
    if records != [] {
      SinkItElsewhere(s, records[0]);
      SinkAllElsewhere(SinkIt(s, records[0]), records[1..]);
    }
  }
}
