/** The sidecar's decision log: one current file and numbered older ones. No I/O error occurs. */
module DecisionLog {
  import opened Prelude

  /** A log entry as the bytes written for it. */
  type Line = seq<bv8>

  function Bytes(lines: seq<Line>): nat {
    if lines == [] then 0 else Bytes(lines[..|lines| - 1]) + |lines[|lines| - 1]|
  }

  /** File 0 is the current one; file `k` is the one with suffix `.k`. */
  type Files = map<nat, seq<Line>>

  /** The contents of the files, from number `n` down to the current one: oldest first. */
  function Oldest(files: Files, n: nat): seq<Line> {
    (if n in files then files[n] else []) + if n == 0 then [] else Oldest(files, n - 1)
  }

  /** No gaps: a numbered file exists only if all lower-numbered ones do. */
  predicate NoGaps(files: Files, maxFiles: nat) {
    && 0 in files
    && forall k <- files :: k <= maxFiles && (k > 0 ==> k - 1 in files)
  }

  predicate IsSuffix(a: seq<Line>, b: seq<Line>) {
    |a| <= |b| && b[|b| - |a|..] == a
  }

  /** Is there something to put under number `k`: for the current file always, else the file before. */
  predicate Refilled(files: Files, k: nat) {
    k == 0 || k - 1 in files
  }

  /** Every file one number up; what had the highest number is gone; the current file is new and empty. */
  function Rotated(files: Files, maxFiles: nat): Files {
    map k: nat | k <= maxFiles && Refilled(files, k) :: if k == 0 then [] else files[k - 1]
  }

  lemma {:induction false} OldestShifted(files: Files, maxFiles: nat, n: nat)
    requires 1 <= n <= maxFiles
    ensures Oldest(Rotated(files, maxFiles), n) == Oldest(files, n - 1)
  {
    var r := Rotated(files, maxFiles);
    if n > 1 {
      OldestShifted(files, maxFiles, n - 1);
    } else {
      assert Oldest(r, 0) == [];
      assert (if 0 in files then files[0] else []) + [] == (if 0 in files then files[0] else []);
    }
  }

  /** Rotation drops exactly the oldest file if all are in use, and nothing else. */
  lemma RotationDropsOldest(files: Files, maxFiles: nat)
    requires maxFiles >= 1 && NoGaps(files, maxFiles)
    ensures NoGaps(Rotated(files, maxFiles), maxFiles)
    ensures Oldest(files, maxFiles)
            == (if maxFiles in files then files[maxFiles] else []) + Oldest(Rotated(files, maxFiles), maxFiles)
  {
    OldestShifted(files, maxFiles, maxFiles);
    RotatedHasNoGaps(files, maxFiles);
  }

  lemma RotatedHasNoGaps(files: Files, maxFiles: nat)
    requires NoGaps(files, maxFiles)
    ensures NoGaps(Rotated(files, maxFiles), maxFiles)
  {
    var r := Rotated(files, maxFiles);
    assert Refilled(files, 0);
    forall k: nat | k in r ensures k <= maxFiles && (k > 0 ==> k - 1 in r) {
      if k > 0 { assert k - 1 in files && Refilled(files, k - 1); }
    }
  }

  lemma SuffixOfSuffix(dropped: seq<Line>, kept: seq<Line>, all: seq<Line>)
    requires IsSuffix(dropped + kept, all)
    ensures IsSuffix(kept, all)
  {
    assert kept == (dropped + kept)[|dropped|..];
  }

  /** The files, oldest first, are the end of everything written, and all of it until the last number is used. */
  ghost predicate EndOf(files: Files, maxFiles: nat, written: seq<Line>)
    ensures EndOf(files, maxFiles, written) ==> 0 in files
  {
    && NoGaps(files, maxFiles)
    && IsSuffix(Oldest(files, maxFiles), written)
    && (maxFiles !in files ==> Oldest(files, maxFiles) == written)
  }

  lemma BytesSnoc(lines: seq<Line>, line: Line)
    ensures Bytes(lines + [line]) == Bytes(lines) + |line|
  {
    assert (lines + [line])[..|lines|] == lines;
  }

  lemma AppendKeeps(files: Files, maxFiles: nat, written: seq<Line>, line: Line)
    requires EndOf(files, maxFiles, written)
    ensures EndOf(files[0 := files[0] + [line]], maxFiles, written + [line])
    ensures Bytes(files[0] + [line]) == Bytes(files[0]) + |line|
  {
    hide Oldest, Bytes;
    BytesSnoc(files[0], line);
    AppendCurrent(files, maxFiles, line);
    var kept := Oldest(files, maxFiles);
    var n := |written| - |kept|;
    assert (written + [line])[n..] == written[n..] + [line];
  }

  lemma RotateKeeps(files: Files, maxFiles: nat, written: seq<Line>)
    requires maxFiles >= 1 && EndOf(files, maxFiles, written)
    ensures EndOf(Rotated(files, maxFiles), maxFiles, written)
    ensures Rotated(files, maxFiles)[0] == [] && Bytes([]) == 0 && NoGaps(files, maxFiles)
  {
    RotationDropsOldest(files, maxFiles);
    LastSlot(files, maxFiles);
    hide Oldest, Rotated, NoGaps;
    var kept := Oldest(Rotated(files, maxFiles), maxFiles);
    if maxFiles in files {
      SuffixOfSuffix(files[maxFiles], kept, written);
    } else {
      assert [] + kept == kept;
    }
  }

  lemma LastSlot(files: Files, maxFiles: nat)
    requires maxFiles >= 1 && NoGaps(files, maxFiles)
    ensures maxFiles in files ==> maxFiles in Rotated(files, maxFiles)
    ensures 0 in Rotated(files, maxFiles) && Rotated(files, maxFiles)[0] == []
  {
    assert Refilled(files, 0) && (maxFiles in files ==> Refilled(files, maxFiles));
  }

  class DecisionLog {
    const maxSizeBytes: nat
    const maxFiles: nat
    var files: Files
    var currentSize: nat
    ghost var written: seq<Line>

    ghost predicate Valid()
      reads this
    {
      && maxFiles >= 1 && maxSizeBytes >= 1 && EndOf(files, maxFiles, written)
      && currentSize == Bytes(files[0]) < maxSizeBytes
    }

    constructor (maxSizeBytes: nat, maxFiles: nat)
      requires maxSizeBytes >= 1 && maxFiles >= 1
      ensures Valid() && written == [] && files == map[0 := []]
      ensures this.maxSizeBytes == maxSizeBytes && this.maxFiles == maxFiles
    {
      this.maxSizeBytes, this.maxFiles := maxSizeBytes, maxFiles;
      files, currentSize, written := map[0 := []], 0, [];
      new;
      NothingWritten(maxFiles);
    }

    /** The files, oldest first, are always the end of everything written, and all of it until the last number
        is used; a write that fills the current file rotates, and loses at most the oldest file. */
    method Write(line: Line)
      requires Valid()
      modifies this
      ensures Valid() && written == old(written) + [line]
      ensures var full := Bytes(old(files)[0] + [line]) >= maxSizeBytes;
              files == if full then Rotated(old(files)[0 := old(files)[0] + [line]], maxFiles)
                       else old(files)[0 := old(files)[0] + [line]]
    {
      hide Oldest, Rotated, NoGaps, Bytes, IsSuffix;
      ghost var before, log := files, written;
      AppendKeeps(files, maxFiles, written, line);
      files := files[0 := files[0] + [line]];
      currentSize := currentSize + |line|;
      written := written + [line];
      if currentSize >= maxSizeBytes {
        RotateKeeps(files, maxFiles, written);
        Rotate();
      }
    }

    /** Shift from the highest number down, then open an empty current file. */
    method Rotate()
      requires maxFiles >= 1 && NoGaps(files, maxFiles)
      modifies `files, `currentSize
      ensures files == Rotated(old(files), maxFiles) && currentSize == 0
    {
      ghost var was := files;
      var i := maxFiles;
      hide Shifted, Rotated;
      ShiftStart(was, maxFiles);
      while i >= 1
        invariant 0 <= i <= maxFiles
        invariant Shifted(was, files, i, maxFiles)
        decreases i
      {
        ShiftOne(was, files, i, maxFiles);
        if i == maxFiles && i in files { files := files - {i}; }
        if i - 1 in files {
          files := files[i := files[i - 1]] - {i - 1};
        }
        i := i - 1;
      }
      ShiftedIsRotated(was, files, maxFiles);
      files := files[0 := []];
      currentSize := 0;
    }
  }

  /** The renaming has reached number `i`: it is free, unless nothing was moved yet. */
  ghost predicate Shifted(was: Files, files: Files, i: nat, maxFiles: nat) {
    forall k: nat {:trigger k in files} ::
      && (k < i ==> (k in files <==> k in was) && (k in was ==> files[k] == was[k]))
      && (k == i ==> (k in files <==> i == maxFiles && k in was))
      && (k > i ==> (k in files <==> k <= maxFiles && k - 1 in was) && (k in files ==> files[k] == was[k - 1]))
  }

  lemma ShiftStart(was: Files, maxFiles: nat)
    requires NoGaps(was, maxFiles)
    ensures Shifted(was, was, maxFiles, maxFiles)
  {
  }

  /** One round of the loop: free number `i`, then move the file below it there. */
  lemma ShiftOne(was: Files, files: Files, i: nat, maxFiles: nat)
    requires 1 <= i <= maxFiles && Shifted(was, files, i, maxFiles)
    ensures var freed := if i == maxFiles && i in files then files - {i} else files;
            Shifted(was, if i - 1 in freed then freed[i := freed[i - 1]] - {i - 1} else freed, i - 1, maxFiles)
  {
  }

  lemma ShiftedIsRotated(was: Files, files: Files, maxFiles: nat)
    requires NoGaps(was, maxFiles) && Shifted(was, files, 0, maxFiles) && maxFiles >= 1
    ensures files[0 := []] == Rotated(was, maxFiles)
  {
    forall k: nat ensures k in files[0 := []] <==> k <= maxFiles && Refilled(was, k) {
      if k > 0 { assert k in files <==> k in files[0 := []]; }
    }
  }

  lemma {:induction false} NothingWritten(n: nat)
    ensures Oldest(map[0 := []], n) == []
  {
    if n > 0 { NothingWritten(n - 1); }
  }

  lemma {:induction false} AppendCurrent(files: Files, n: nat, line: Line)
    requires 0 in files
    ensures Oldest(files[0 := files[0] + [line]], n) == Oldest(files, n) + [line]
  {
    if n > 0 { AppendCurrent(files, n - 1, line); }
  }
}
