/** src/Lib/Logger/Sink/FileSink.cpp: the log file and its numbered backups. The directory is
    a map: 0 is the log file itself, i is the backup with suffix ".i". */
module LogRotation {
  import opened StringOps

  type Disk = map<nat, string>

  /** Renaming over an existing file replaces it. */
  function Rename(d: Disk, from: nat, to: nat): Disk
    requires from in d
  {
    (d - {from})[to := d[from]]
  }

  /** Whether there is a file number `k` after a rotation. */
  predicate Stays(d: Disk, max: nat, k: nat) {
    k == 0 || (k <= max && k - 1 in d) || (k > max && k in d)
  }

  /** The exact shift: the log file starts anew, backup k is what was one number below, gaps
      move along, and files with higher numbers stay. */
  function Shifted(d: Disk, max: nat): Disk {
    map k | k in {0} + d.Keys + (set i | i in d :: i + 1) && Stays(d, max, k) ::
      if k == 0 then "" else if k <= max then d[k - 1] else d[k]
  }

  lemma {:induction false} ShiftedHas(d: Disk, max: nat, k: nat)
    ensures k in Shifted(d, max) <==> Stays(d, max, k)
  {
    if k > 0 && k - 1 in d { assert k == (k - 1) + 1; }
  }

  function Content(d: Disk, k: nat): string {
    if k in d then d[k] else ""
  }

  function Look(d: Disk, k: nat): Option<string> {
    if k in d then Some(d[k]) else None
  }

  /** The files when those above `i` have moved up and number `i + 1` is free. */
  function HalfShifted(d: Disk, max: nat, i: int, k: nat): Option<string>
    requires -1 <= i
  {
    if k <= i || k > max then Look(d, k) else if k == i + 1 then None else Look(d, k - 1)
  }

  /** The retained text, oldest file first. */
  function Retained(d: Disk, k: nat): string {
    Content(d, k) + if k == 0 then "" else Retained(d, k - 1)
  }

  /** One log call: the line is appended, and a full file is rotated away. */
  function Written(d: Disk, line: string): Disk {
    d[0 := Content(d, 0) + line + "\n"]
  }

  function Logged(d: Disk, maxFileSize: nat, maxBackups: nat, line: string): Disk {
    var w := Written(d, line);
    if |w[0]| >= maxFileSize then Shifted(w, maxBackups) else w
  }

  class FileSink {
    const maxFileSize: nat
    const maxBackupFiles: nat
    var disk: Disk

    /** Opening for append creates the file when it is missing. */
    constructor (maxFileSize: nat, maxBackupFiles: nat, found: Disk)
      ensures this.maxFileSize == maxFileSize && this.maxBackupFiles == maxBackupFiles
      ensures disk == found[0 := Content(found, 0)]
    {
      this.maxFileSize, this.maxBackupFiles := maxFileSize, maxBackupFiles;
      disk := found[0 := Content(found, 0)];
    }

    method Log(line: string)
      requires 0 in disk
      modifies this`disk
      ensures 0 in disk && disk == Logged(old(disk), maxFileSize, maxBackupFiles, line)
    {
      disk := disk[0 := disk[0] + line + "\n"];
      if |disk[0]| >= maxFileSize {
        Rotate();
      }
    }

    /** The descending loop: the oldest backup goes, the others move up by one. */
    method ShiftBackups()
      requires maxBackupFiles > 0
      modifies this`disk
      ensures forall k: nat :: Look(disk, k) == HalfShifted(old(disk), maxBackupFiles, 0, k)
    {
      disk := disk - {maxBackupFiles};
      var i := maxBackupFiles - 1;
      while i > 0
        invariant 0 <= i < maxBackupFiles
        invariant forall k: nat :: Look(disk, k) == HalfShifted(old(disk), maxBackupFiles, i, k)
      {
        ghost var before := disk;
        if i in disk {
          disk := Rename(disk, i, i + 1);
        }
        ShiftStep(old(disk), maxBackupFiles, i, before, disk);
        i := i - 1;
      }
    }

    /** FileSink::rotate when every remove and rename succeeds. */
    method Rotate()
      modifies this`disk
      ensures 0 in disk && disk == Shifted(old(disk), maxBackupFiles)
    {
      ghost var before := disk;
      if maxBackupFiles == 0 {
        disk := disk - {0};
      } else {
        ShiftBackups();
        ghost var shifted := disk;
        if 0 in disk {
          disk := Rename(disk, 0, 1);
        }
        ShiftStep(before, maxBackupFiles, 0, shifted, disk);
      }
      ShiftEnds(before, maxBackupFiles, disk);
      disk := disk[0 := Content(disk, 0)];
    }
  }

  /** One turn: number `i`, if it is there, moves to the free place above it. */
  lemma {:induction false} ShiftStep(d0: Disk, max: nat, i: nat, d: Disk, e: Disk)
    requires i < max && forall k: nat :: Look(d, k) == HalfShifted(d0, max, i, k)
    requires e == if i in d then Rename(d, i, i + 1) else d
    ensures forall k: nat :: Look(e, k) == HalfShifted(d0, max, i - 1, k)
  {
    assert Look(d, i) == HalfShifted(d0, max, i, i);
    assert Look(d, i + 1) == HalfShifted(d0, max, i, i + 1);
    forall k: nat ensures Look(e, k) == HalfShifted(d0, max, i - 1, k) {
      assert Look(d, k) == HalfShifted(d0, max, i, k);
    }
  }

  /** With all files moved up, opening the log file completes the shift. */
  lemma {:induction false} ShiftEnds(d: Disk, max: nat, r: Disk)
    requires forall k: nat :: Look(r, k) == HalfShifted(d, max, -1, k)
    ensures r[0 := Content(r, 0)] == Shifted(d, max)
  {
    var e, s := r[0 := Content(r, 0)], Shifted(d, max);
    assert Look(r, 0) == HalfShifted(d, max, -1, 0);
    forall k: nat ensures (k in e <==> k in s) && (k in e ==> e[k] == s[k]) {
      ShiftedHas(d, max, k);
      assert Look(r, k) == HalfShifted(d, max, -1, k);
    }
  }

  /** Rotating loses the oldest text and nothing else. */
  lemma {:induction false} ShiftRetains(d: Disk, max: nat, k: nat)
    requires k <= max
    ensures Retained(Shifted(d, max), k) == if k == 0 then "" else Retained(d, k - 1)
  {
    var s := Shifted(d, max);
    ShiftedHas(d, max, k);
    if k > 0 {
      ShiftRetains(d, max, k - 1);
      assert Content(s, k) == Content(d, k - 1);
      if k == 1 { assert Retained(d, 0) == Content(d, 0) + ""; }
    }
  }

  lemma {:induction false} WriteRetains(d: Disk, line: string, k: nat)
    ensures Retained(Written(d, line), k) == Retained(d, k) + line + "\n"
  {
    if k > 0 {
      WriteRetains(d, line, k - 1);
      Associates(Content(d, k), Retained(d, k - 1) + line, "\n");
      Associates(Content(d, k), Retained(d, k - 1), line);
    }
  }

  /** What a call drops: the oldest backup when it rotates, nothing otherwise. */
  function Dropped(d: Disk, maxFileSize: nat, maxBackups: nat, line: string): string {
    var w := Written(d, line);
    if |w[0]| >= maxFileSize then Content(w, maxBackups) else ""
  }

  /** Conservation, from any directory, with any gaps among the backups: the old text and
      the new line are what was dropped followed by what is retained. */
  lemma {:induction false} LogConserves(d: Disk, maxFileSize: nat, maxBackups: nat, line: string)
    ensures Retained(d, maxBackups) + line + "\n"
         == Dropped(d, maxFileSize, maxBackups, line) + Retained(Logged(d, maxFileSize, maxBackups, line), maxBackups)
  {
    var w := Written(d, line);
    WriteRetains(d, line, maxBackups);
    if |w[0]| >= maxFileSize {
      ShiftRetains(w, maxBackups, maxBackups);
    }
  }

  // ---------- runs ----------

  function AfterAll(d: Disk, maxFileSize: nat, maxBackups: nat, lines: seq<string>): Disk
    decreases |lines|
  {
    if lines == [] then d
    else AfterAll(Logged(d, maxFileSize, maxBackups, lines[0]), maxFileSize, maxBackups, lines[1..])
  }

  function Text(lines: seq<string>): string {
    if lines == [] then "" else lines[0] + "\n" + Text(lines[1..])
  }

  /** After any number of calls the retained text is a suffix of everything there was. */
  lemma {:induction false} RetainedIsSuffix(d: Disk, maxFileSize: nat, maxBackups: nat, lines: seq<string>)
      returns (gone: string)
    ensures Retained(d, maxBackups) + Text(lines)
         == gone + Retained(AfterAll(d, maxFileSize, maxBackups, lines), maxBackups)
    decreases |lines|
  {
    if lines == [] {
      gone := "";
    } else {
      var line, rest := lines[0], lines[1..];
      var d1 := Logged(d, maxFileSize, maxBackups, line);
      LogConserves(d, maxFileSize, maxBackups, line);
      var more := RetainedIsSuffix(d1, maxFileSize, maxBackups, rest);
      var first := Dropped(d, maxFileSize, maxBackups, line);
      gone := first + more;
      Regroup(Retained(d, maxBackups), line + "\n", Text(rest), first, Retained(d1, maxBackups), more,
              Retained(AfterAll(d, maxFileSize, maxBackups, lines), maxBackups));
      assert Retained(d, maxBackups) + line + "\n" == Retained(d, maxBackups) + (line + "\n");
    }
  }

  /** From an empty directory the retained files are a suffix of everything logged. */
  lemma {:induction false} EmptyStartSuffix(maxFileSize: nat, maxBackups: nat, lines: seq<string>)
      returns (gone: string)
    ensures Text(lines) == gone + Retained(AfterAll(map[0 := ""], maxFileSize, maxBackups, lines), maxBackups)
  {
    NothingYet(maxBackups);
    gone := RetainedIsSuffix(map[0 := ""], maxFileSize, maxBackups, lines);
    assert "" + Text(lines) == Text(lines);
  }

  lemma {:induction false} NothingYet(k: nat)
    ensures Retained(map[0 := ""], k) == ""
  {
    if k > 0 { NothingYet(k - 1); }
  }

  /** After a call the log file is the old text and the line, if that is shorter than the limit; otherwise it is
      empty, the first backup, if any is kept, is that text, and every other one what stood a number below. */
  lemma {:induction false} RotatesExactly(d: Disk, maxFileSize: nat, maxBackups: nat, line: string, k: nat)
    ensures var text := Content(d, 0) + line + "\n";
            var after := Logged(d, maxFileSize, maxBackups, line);
            if |text| < maxFileSize
            then Look(after, k) == if k == 0 then Some(text) else Look(d, k)
            else Look(after, k) == if k == 0 then Some("") else if k > maxBackups then Look(d, k)
                                   else if k == 1 then Some(text) else Look(d, k - 1)
  {
    var w := Written(d, line);
    ShiftedHas(w, maxBackups, k);
  }
}
