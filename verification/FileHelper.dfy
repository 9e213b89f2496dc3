/** File names and the files they name: details/file_helper.h over an abstract file system. */
module FileHelpers {
  type Bytes = seq<bv8>

  type Files = map<string, Bytes>

  const FOLDER_SEP := '/'

  /** The last index of a character, or -1. */
  function LastIndexOf(s: string, c: char): (r: int)
    ensures -1 <= r < |s|
    ensures r >= 0 ==> s[r] == c
    ensures forall i :: r < i < |s| ==> s[i] != c
  {
    if s == [] then -1
    else if s[|s| - 1] == c then |s| - 1
    else LastIndexOf(s[..|s| - 1], c)
  }

  function SplitByExtension(name: string): (string, string) {
    var dot := LastIndexOf(name, '.');
    if dot <= 0 || dot == |name| - 1 then (name, "")
    else
      var folder := LastIndexOf(name, FOLDER_SEP);
      if folder >= 0 && folder >= dot - 1 then (name, "") else (name[..dot], name[dot..])
  }

  lemma SplitRejoins(name: string)
    ensures SplitByExtension(name).0 + SplitByExtension(name).1 == name
  {
  }

  /** `tail` may follow the dot of an extension, and `base` may stand before it. */
  predicate ExtensionAt(base: string, tail: string) {
    && base != [] && base[|base| - 1] != FOLDER_SEP
    && tail != [] && '.' !in tail && FOLDER_SEP !in tail
  }

  /** An extension is split off exactly when the name has one: a last dot that neither starts nor ends a path component. */
  lemma SplitIsTheExtension(name: string, base: string, tail: string)
    ensures (name == base + "." + tail && ExtensionAt(base, tail)) <==>
            (SplitByExtension(name) == (base, "." + tail) && tail != [])
  {
    if name == base + "." + tail && ExtensionAt(base, tail) {
      ExtensionIsSplit(name, base, tail);
    }
    if SplitByExtension(name) == (base, "." + tail) && tail != [] {
      SplitIsExtension(name, base, tail);
    }
  }

  lemma ExtensionIsSplit(name: string, base: string, tail: string)
    requires name == base + "." + tail && ExtensionAt(base, tail)
    ensures SplitByExtension(name) == (base, "." + tail)
  {
    hide LastIndexOf;
    var dot := |base|;
    assert name[dot] == '.' && name[dot - 1] == base[dot - 1];
    assert forall i :: dot < i < |name| ==> name[i] == tail[i - dot - 1];
    assert LastIndexOf(name, '.') == dot;
    assert LastIndexOf(name, FOLDER_SEP) < dot - 1;
    assert name[..dot] == base && name[dot..] == "." + tail;
  }

  lemma SplitIsExtension(name: string, base: string, tail: string)
    requires SplitByExtension(name) == (base, "." + tail) && tail != []
    ensures name == base + "." + tail && ExtensionAt(base, tail)
  {
    hide LastIndexOf;
    var dot := LastIndexOf(name, '.');
    assert base == name[..dot] && "." + tail == name[dot..];
    assert name == base + ("." + tail) == base + "." + tail;
    assert forall i :: 0 <= i < |tail| ==> tail[i] == name[dot + 1 + i];
    assert base[dot - 1] == name[dot - 1];
  }

  /** The disk, which belongs to nobody else while the sink is in use. */
  class FileSystem {
    var files: Files

    constructor (files: Files)
      ensures this.files == files
    {
      this.files := files;
    }

    method Exists(name: string) returns (b: bool)
      ensures b <==> name in files
    {
      b := name in files;
    }

    method Remove(name: string)
      modifies this
      ensures files == old(files) - {name}
    {
      files := files - {name};
    }

    method Rename(source: string, target: string)
      requires source in files
      modifies this
      ensures files == (old(files) - {source})[target := old(files)[source]]
    {
      files := (files - {source})[target := files[source]];
    }
  }

  function Opened(files: Files, name: string, truncate: bool): Files {
    if truncate || name !in files then files[name := []] else files
  }

  function Appended(files: Files, name: string, data: Bytes): Files
    requires name in files
  {
    files[name := files[name] + data]
  }

  class FileHelper {
    const disk: FileSystem
    var isOpen: bool
    var filename: string

    ghost predicate Valid()
      reads this, disk
    {
      isOpen ==> filename in disk.files
    }

    constructor (disk: FileSystem)
      ensures Valid() && !isOpen && this.disk == disk
    {
      this.disk, isOpen, filename := disk, false, "";
    }

    method Open(name: string, truncate: bool)
      requires Valid()
      modifies this, disk
      ensures Valid() && isOpen && filename == name
      ensures disk.files == Opened(old(disk.files), name, truncate)
    {
      Close();
      filename := name;
      if truncate || name !in disk.files {
        disk.files := disk.files[name := []];
      }
      isOpen := true;
    }

    method Reopen(truncate: bool)
      requires Valid()
      modifies this, disk
      ensures Valid() && isOpen && filename == old(filename)
      ensures disk.files == Opened(old(disk.files), filename, truncate)
    {
      Open(filename, truncate);
    }

    method Close()
      modifies this
      ensures !isOpen && filename == old(filename)
    {
      isOpen := false;
    }

    method Write(data: Bytes)
      requires Valid() && isOpen
      modifies disk
      ensures Valid() && disk.files == Appended(old(disk.files), filename, data)
    {
      disk.files := disk.files[filename := disk.files[filename] + data];
    }

    method Size() returns (n: nat)
      requires Valid() && isOpen
      ensures n == |disk.files[filename]|
    {
      n := |disk.files[filename]|;
    }
  }
}
