/** Size-based log rotation, sinks/rotating_file_sink.h: renames succeed and nobody else touches the files. */
module RotatingFileSinks {
  import opened Decimal
  import opened FileHelpers

  /** The name of the `index`-th file: the number goes between the base name and the extension. */
  function CalcFilename(filename: string, index: nat): string {
    if index != 0 then
      var (basename, ext) := SplitByExtension(filename);
      basename + "." + Digits(index) + ext
    else filename
  }

  /** Different files of one log have different names. */
  lemma CalcFilenameInjective(filename: string, i: nat, j: nat)
    requires CalcFilename(filename, i) == CalcFilename(filename, j)
    ensures i == j
  {
    var (basename, ext) := SplitByExtension(filename);
    SplitRejoins(filename);
    var a, b := CalcFilename(filename, i), CalcFilename(filename, j);
    if i != 0 && j != 0 {
      assert |Digits(i)| == |Digits(j)|;
      assert a[|basename| + 1..|basename| + 1 + |Digits(i)|] == Digits(i);
      assert b[|basename| + 1..|basename| + 1 + |Digits(j)|] == Digits(j);
      DigitsInjective(i, j);
    }
  }

  /** Where the number goes: in front of the extension when there is one, and at the end otherwise. */
  lemma CalcFilenameKeepsExtension(base: string, tail: string, name: string, index: nat)
    requires index > 0
    ensures ExtensionAt(base, tail) ==> CalcFilename(base + "." + tail, index) == base + "." + Digits(index) + "." + tail
    ensures SplitByExtension(name).1 == "" ==> CalcFilename(name, index) == name + "." + Digits(index)
  {
    if ExtensionAt(base, tail) {
      SplitIsTheExtension(base + "." + tail, base, tail);
      assert base + "." + Digits(index) + ("." + tail) == base + "." + Digits(index) + "." + tail;
    }
    if SplitByExtension(name).1 == "" {
      SplitRejoins(name);
      assert name == SplitByExtension(name).0 + "" == SplitByExtension(name).0;
      assert name + "." + Digits(index) + "" == name + "." + Digits(index);
    }
  }

  // ---- the files ----

  /** One round of the loop: the file before `i` becomes the file `i`, if there is one. */
  function ShiftFile(files: Files, base: string, i: nat): Files
    requires i > 0
  {
    var source, target := CalcFilename(base, i - 1), CalcFilename(base, i);
    if source in files then (files - {target} - {source})[target := files[source]] else files
  }

  function ShiftFiles(files: Files, base: string, i: nat): Files
    decreases i
  {
    if i == 0 then files else ShiftFiles(ShiftFile(files, base, i), base, i - 1)
  }

  function Rotated(files: Files, base: string, maxFiles: nat): Files {
    ShiftFiles(files, base, maxFiles)[base := []]
  }

  /** The sink as a value: what it was made with, the files, and the size it believes the current one to have. */
  datatype Sink = Sink(base: string, maxSize: nat, maxFiles: nat, files: Files, currentSize: nat)

  ghost predicate Ready(s: Sink) {
    s.base in s.files
  }

  function OpenSink(base: string, maxSize: nat, maxFiles: nat, rotateOnOpen: bool, files: Files): (s: Sink)
    ensures Ready(s)
  {
    var present := Opened(files, base, false);
    var size := |present[base]|;
    Sink(base, maxSize, maxFiles, if rotateOnOpen && size > 0 then Rotated(present, base, maxFiles) else present, size)
  }

  function SinkIt(s: Sink, record: Bytes): (r: Sink)
    requires Ready(s)
    ensures Ready(r)
  {
    if s.currentSize + |record| > s.maxSize then
      s.(files := Appended(Rotated(s.files, s.base, s.maxFiles), s.base, record), currentSize := |record|)
    else
      s.(files := Appended(s.files, s.base, record), currentSize := s.currentSize + |record|)
  }

  function SinkAll(s: Sink, records: seq<Bytes>): (r: Sink)
    requires Ready(s)
    ensures Ready(r)
    decreases |records|
  {
    if records == [] then s else SinkAll(SinkIt(s, records[0]), records[1..])
  }

  class RotatingFileSink {
    const baseFilename: string
    const maxSize: nat
    const maxFiles: nat
    var currentSize: nat
    const helper: FileHelper

    ghost predicate Valid()
      reads this, helper, helper.disk
    {
      helper.Valid() && helper.isOpen && helper.filename == baseFilename
    }

    ghost function State(): Sink
      reads this, helper, helper.disk
    {
      Sink(baseFilename, maxSize, maxFiles, helper.disk.files, currentSize)
    }

    constructor (base: string, maxSize: nat, maxFiles: nat, rotateOnOpen: bool, disk: FileSystem)
      modifies disk
      ensures Valid() && fresh(helper) && helper.disk == disk
      ensures State() == OpenSink(base, maxSize, maxFiles, rotateOnOpen, old(disk.files))
    {
      baseFilename, this.maxSize, this.maxFiles := base, maxSize, maxFiles;
      currentSize := 0;
      helper := new FileHelper(disk);
      new;
      helper.Open(CalcFilename(base, 0), false);
      currentSize := helper.Size();
      if rotateOnOpen && currentSize > 0 {
        Rotate();
      }
    }

    method Rotate()
      requires helper.Valid() && helper.filename == baseFilename
      modifies helper, helper.disk
      ensures Valid() && helper.disk.files == Rotated(old(helper.disk.files), baseFilename, maxFiles)
    {
      helper.Close();
      var i := maxFiles;
      while i > 0
        invariant !helper.isOpen && helper.filename == baseFilename
        invariant ShiftFiles(helper.disk.files, baseFilename, i) == ShiftFiles(old(helper.disk.files), baseFilename, maxFiles)
      {
        var source := CalcFilename(baseFilename, i - 1);
        var present := helper.disk.Exists(source);
        if present {
          CalcFilenameDiffers(baseFilename, i - 1);
          var renamed := RenameFile(source, CalcFilename(baseFilename, i));
        }
        i := i - 1;
      }
      helper.Reopen(true);
    }

    /** Fails when there is nothing to rename, as after removing a target that is the source itself. */
    method RenameFile(source: string, target: string) returns (ok: bool)
      modifies helper.disk
      ensures ok <==> source in old(helper.disk.files) && source != target
      ensures ok ==>
                helper.disk.files == (old(helper.disk.files) - {target} - {source})[target := old(helper.disk.files)[source]]
      ensures !ok ==> helper.disk.files == old(helper.disk.files) - {target}
    {
      helper.disk.Remove(target);
      ok := helper.disk.Exists(source);
      if ok {
        helper.disk.Rename(source, target);
      }
    }

    method SinkItem(formatted: Bytes)
      requires Valid()
      modifies this, helper, helper.disk
      ensures Valid() && State() == SinkIt(old(State()), formatted)
    {
      currentSize := currentSize + |formatted|;
      if currentSize > maxSize {
        Rotate();
        currentSize := |formatted|;
      }
      helper.Write(formatted);
    }
  }

  lemma CalcFilenameDiffers(filename: string, i: nat)
    ensures CalcFilename(filename, i) != CalcFilename(filename, i + 1)
  {
    if CalcFilename(filename, i) == CalcFilename(filename, i + 1) {
      CalcFilenameInjective(filename, i, i + 1);
    }
  }
}
