/**
 * Rotation of the audit file in src/caster.py: append a line, and when the file has grown beyond
 * `max_bytes`, drop the oldest backup and move every file up by one. File operations succeed.
 */
module AuditLog {
  import opened ByteStrings

  type Lines = seq<Bytes>

  /** Every file that exists: 0 is the current one, `i` the backup with suffix `.i`. */
  type Files = map<nat, Lines>

  function FileOf(files: Files, i: nat): Lines
  {
    if i in files then files[i] else []
  }

  /** Backups `n` down to 1 and then the current file, oldest line first. */
  function History(files: Files, n: nat): Lines
  {
    if n == 0 then FileOf(files, 0) else FileOf(files, n) + History(files, n - 1)
  }

  /** Move file `i` to `i + 1`, if it exists. */
  function Move(files: Files, i: nat): Files
  {
    if i in files then (files - {i})[i + 1 := files[i]] else files
  }

  /** Move files `i` down to `0`, in that order. */
  function MoveFrom(files: Files, i: nat): Files
    decreases i
  {
    if i == 0 then Move(files, 0) else MoveFrom(Move(files, i), i - 1)
  }

  function Append(files: Files, line: Bytes): Files
  {
    files[0 := FileOf(files, 0) + [line]]
  }

  function Rotates(files: Files, maxBytes: int): bool
  {
    SumLen(FileOf(files, 0)) > maxBytes
  }

  function Add(files: Files, line: Bytes, maxBytes: int, backups: int): Files
  {
    var f := Append(files, line);
    if Rotates(f, maxBytes) && backups > 0 then MoveFrom(f - {backups as nat}, backups - 1) else f
  }

  class AuditFile {
    var files: Files
    const maxBytes: int
    const backups: int

    constructor (maxBytes: int, backups: int)
      ensures files == map[] && this.maxBytes == maxBytes && this.backups == backups
    {
      this.maxBytes, this.backups := maxBytes, backups;
      files := map[];
    }

    /** The file part of `_audit_add`. */
    method AuditAdd(line: Bytes)
      modifies this
      ensures files == Add(old(files), line, maxBytes, backups)
    {
      files := files[0 := FileOf(files, 0) + [line]];
      if SumLen(files[0]) > maxBytes {
        if backups > 0 {
          ghost var appended := files;
          if backups in files {
            files := files - {backups};
          }
          assert files == appended - {backups};
          var i := backups - 1;
          while i > 0
            invariant 0 <= i
            invariant MoveFrom(files, i) == MoveFrom(appended - {backups}, backups - 1)
          {
            if i in files {
              files := (files - {i})[i + 1 := files[i]];
            }
            i := i - 1;
          }
          if 0 in files {
            files := (files - {0})[1 := files[0]];
          }
        }
      }
    }
  }

  // ----- one step -----

  /** Moving files `i` down to 0 up by one: every file is where the one before it was. */
  lemma {:induction false} MovedUp(files: Files, i: nat)
    requires i + 1 !in files
    ensures var r := MoveFrom(files, i);
      && 0 !in r
      && (forall j: nat :: j <= i ==> (j + 1 in r <==> j in files) && FileOf(r, j + 1) == FileOf(files, j))
      && (forall j: nat :: j > i + 1 ==> (j in r <==> j in files) && FileOf(r, j) == FileOf(files, j))
    decreases i
  {
    if i > 0 {
      var m := Move(files, i);
      MovedUp(m, i - 1);
      var r := MoveFrom(m, i - 1);
      assert FileOf(r, i + 1) == FileOf(m, i + 1) == FileOf(files, i);
      forall j: nat | j < i
        ensures (j + 1 in r <==> j in files) && FileOf(r, j + 1) == FileOf(files, j)
      {
        assert FileOf(m, j) == FileOf(files, j);
      }
    }
  }

  lemma {:induction false} HistoryMovedUp(f: Files, r: Files, k: nat)
    requires 0 !in r && k > 0 && forall j: nat :: j < k ==> FileOf(r, j + 1) == FileOf(f, j)
    ensures History(r, k) == History(f, k - 1)
    decreases k
  {
    if k == 1 {
      assert History(r, 0) == [];
      assert FileOf(f, 0) + [] == FileOf(f, 0);
      assert FileOf(r, 0 + 1) == FileOf(f, 0);
    } else {
      HistoryMovedUp(f, r, k - 1);
      assert FileOf(r, k - 1 + 1) == FileOf(f, k - 1);
    }
  }

  lemma {:induction false} HistoryAppend(files: Files, line: Bytes, n: nat)
    ensures History(Append(files, line), n) == History(files, n) + [line]
  {
    if n > 0 {
      HistoryAppend(files, line, n - 1);
      assert FileOf(files, n) + (History(files, n - 1) + [line]) == History(files, n) + [line];
    }
  }

  /** Backups exist from 1 up to some number without a gap, and none beyond the configured number. */
  ghost predicate Contiguous(files: Files, backups: nat)
  {
    && (forall i :: i in files ==> i <= backups)
    && (forall i :: i in files && i > 1 ==> i - 1 in files)
  }

  /** Without its last line a file is within the bound; the current file is within it altogether. */
  ghost predicate Bounded(files: Files, maxBytes: int)
  {
    && AllSlim(files, maxBytes)
    && (FileOf(files, 0) == [] || SumLen(FileOf(files, 0)) <= maxBytes)
  }

  predicate Slim(file: Lines, maxBytes: int)
  {
    |file| <= 1 || SumLen(file[..|file| - 1]) <= maxBytes
  }

  /** What one entry loses: the oldest backup, and only when the file rotates. */
  function Lost(files: Files, line: Bytes, maxBytes: int, backups: nat): Lines
  {
    if SumLen(FileOf(files, 0)) + |line| > maxBytes then FileOf(files, backups) else []
  }

  lemma GrownSize(files: Files, line: Bytes)
    ensures SumLen(FileOf(Append(files, line), 0)) == SumLen(FileOf(files, 0)) + |line|
  {
    SumLenAppend(FileOf(files, 0), [line]);
    assert [line][1..] == [];
  }

  lemma AddKeepsHistory(files: Files, line: Bytes, maxBytes: int, backups: nat)
    requires backups > 0
    ensures History(files, backups) + [line] ==
      Lost(files, line, maxBytes, backups) + History(Add(files, line, maxBytes, backups), backups)
  {
    var f := Append(files, line);
    GrownSize(files, line);
    HistoryAppend(files, line, backups);
    if Rotates(f, maxBytes) {
      var g := f - {backups};
      MovedUp(g, backups - 1);
      HistoryMovedUp(g, MoveFrom(g, backups - 1), backups);
      SameHistory(f, g, backups - 1);
    } else {
      assert [] + History(f, backups) == History(f, backups);
    }
  }

  lemma {:induction false} SameHistory(f: Files, g: Files, n: nat)
    requires forall i: nat :: i <= n ==> FileOf(f, i) == FileOf(g, i)
    ensures History(f, n) == History(g, n)
  {
    if n > 0 {
      SameHistory(f, g, n - 1);
    }
  }

  lemma AppendKeepsContiguous(files: Files, line: Bytes, backups: nat)
    requires Contiguous(files, backups)
    ensures Contiguous(Append(files, line), backups) && 0 in Append(files, line)
  {
  }

  lemma AddKeepsContiguous(files: Files, line: Bytes, maxBytes: int, backups: nat)
    requires backups > 0 && Contiguous(files, backups)
    ensures Contiguous(Add(files, line, maxBytes, backups), backups)
  {
    var f := Append(files, line);
    AppendKeepsContiguous(files, line, backups);
    if Rotates(f, maxBytes) {
      RotateKeepsContiguous(f, backups);
    }
  }

  lemma RotateKeepsContiguous(f: Files, backups: nat)
    requires backups > 0 && Contiguous(f, backups) && 0 in f
    ensures Contiguous(MoveFrom(f - {backups}, backups - 1), backups)
  {
    var g := f - {backups};
    var r := MoveFrom(g, backups - 1);
    MovedUp(g, backups - 1);
    assert forall i :: i in g ==> i < backups;
    forall i | i in r && 1 < i <= backups
      ensures i - 1 in r
    {
      assert i - 1 + 1 in r && i - 1 in g && i - 2 in g;
      assert i - 2 + 1 in r;
    }
  }

  lemma AppendKeepsSlim(files: Files, line: Bytes, maxBytes: int)
    requires Bounded(files, maxBytes)
    ensures AllSlim(Append(files, line), maxBytes)
  {
    var file := FileOf(files, 0);
    assert (file + [line])[..|file|] == file;
  }

  ghost predicate AllSlim(files: Files, maxBytes: int)
  {
    forall i :: i in files ==> Slim(files[i], maxBytes)
  }

  lemma RotateKeepsSlim(g: Files, maxBytes: int, n: nat)
    requires n + 1 !in g && AllSlim(g, maxBytes)
    ensures AllSlim(MoveFrom(g, n), maxBytes) && FileOf(MoveFrom(g, n), 0) == []
  {
    var r := MoveFrom(g, n);
    MovedUp(g, n);
    forall i | i in r
      ensures Slim(r[i], maxBytes)
    {
      if i <= n + 1 {
        var j: nat := i - 1;
        assert j + 1 in r && j in g;
        assert r[i] == FileOf(r, j + 1) == FileOf(g, j);
      } else {
        assert r[i] == FileOf(r, i) == FileOf(g, i);
      }
    }
  }

  lemma AddKeepsBounded(files: Files, line: Bytes, maxBytes: int, backups: nat)
    requires backups > 0 && Bounded(files, maxBytes)
    ensures Bounded(Add(files, line, maxBytes, backups), maxBytes)
  {
    var f := Append(files, line);
    AppendKeepsSlim(files, line, maxBytes);
    if Rotates(f, maxBytes) {
      RotateKeepsSlim(f - {backups}, maxBytes, backups - 1);
    }
  }

  /** No file rotates before it is over the bound: every backup is. */
  ghost predicate BackupsFull(files: Files, maxBytes: int)
  {
    forall i :: i in files && i > 0 ==> SumLen(files[i]) > maxBytes
  }

  ghost predicate AllFull(files: Files, maxBytes: int)
  {
    forall i :: i in files ==> SumLen(files[i]) > maxBytes
  }

  lemma RotateKeepsFull(g: Files, maxBytes: int, n: nat)
    requires n + 1 !in g && AllFull(g, maxBytes)
    ensures AllFull(MoveFrom(g, n), maxBytes)
  {
    var r := MoveFrom(g, n);
    MovedUp(g, n);
    forall i | i in r
      ensures SumLen(r[i]) > maxBytes
    {
      if i <= n + 1 {
        var j: nat := i - 1;
        assert j + 1 in r && j in g;
        assert r[i] == FileOf(r, j + 1) == FileOf(g, j);
      } else {
        assert r[i] == FileOf(r, i) == FileOf(g, i);
      }
    }
  }

  lemma AddKeepsFull(files: Files, line: Bytes, maxBytes: int, backups: nat)
    requires backups > 0 && BackupsFull(files, maxBytes)
    ensures BackupsFull(Add(files, line, maxBytes, backups), maxBytes)
  {
    var f := Append(files, line);
    GrownSize(files, line);
    if Rotates(f, maxBytes) {
      RotateKeepsFull(f - {backups}, maxBytes, backups - 1);
    }
  }

  // ----- all entries -----

  function AddAll(lines: Lines, maxBytes: int, backups: int): Files
  {
    if lines == [] then map[]
    else Add(AddAll(lines[..|lines| - 1], maxBytes, backups), lines[|lines| - 1], maxBytes, backups)
  }

  /**
   * For any number of entries, with at least one backup: the files, oldest backup first, hold a suffix of
   * all lines ever written; the backups are contiguous; each file is at most one line over the bound, and each
   * backup is over it.
   */
  lemma {:induction false} HistoryIsSuffix(lines: Lines, maxBytes: int, backups: nat)
    requires backups > 0
    ensures var files := AddAll(lines, maxBytes, backups);
      var h := History(files, backups);
      && |h| <= |lines| && h == lines[|lines| - |h|..]
      && Contiguous(files, backups) && Bounded(files, maxBytes) && BackupsFull(files, maxBytes)
  {
    if lines == [] {
      EmptyHistory(backups);
    } else {
      var init, last := lines[..|lines| - 1], lines[|lines| - 1];
      HistoryIsSuffix(init, maxBytes, backups);
      var files := AddAll(init, maxBytes, backups);
      AddKeepsHistory(files, last, maxBytes, backups);
      AddKeepsContiguous(files, last, maxBytes, backups);
      AddKeepsFull(files, last, maxBytes, backups);
      AddKeepsBounded(files, last, maxBytes, backups);
      SuffixStep(init, last, History(files, backups), Lost(files, last, maxBytes, backups),
                 History(Add(files, last, maxBytes, backups), backups));
      assert lines == init + [last];
    }
  }

  lemma SuffixStep(init: Lines, last: Bytes, h: Lines, lost: Lines, next: Lines)
    requires |h| <= |init| && h == init[|init| - |h|..] && h + [last] == lost + next
    ensures |next| <= |init + [last]| && next == (init + [last])[|init + [last]| - |next|..]
  {
    var all := init + [last];
    assert all[|all| - |h| - 1..] == h + [last];
    assert (lost + next)[|lost|..] == next;
  }

  lemma {:induction false} EmptyHistory(n: nat)
    ensures History(map[], n) == []
  {
    if n > 0 {
      EmptyHistory(n - 1);
    }
  }

  lemma AddWithoutBackups(files: Files, line: Bytes, maxBytes: int, backups: int)
    requires backups <= 0
    ensures FileOf(Add(files, line, maxBytes, backups), 0) == FileOf(files, 0) + [line]
  {
    var f := Append(files, line);
    assert Add(files, line, maxBytes, backups) == f;
  }

  /** With no backups configured the current file is never rotated and keeps every line. */
  lemma {:induction false} NoBackupsNoRotation(lines: Lines, maxBytes: int, backups: int)
    requires backups <= 0
    ensures FileOf(AddAll(lines, maxBytes, backups), 0) == lines
  {
    if lines != [] {
      NoBackupsNoRotation(lines[..|lines| - 1], maxBytes, backups);
      AddWithoutBackups(AddAll(lines[..|lines| - 1], maxBytes, backups), lines[|lines| - 1], maxBytes, backups);
      assert lines == lines[..|lines| - 1] + [lines[|lines| - 1]];
    }
  }

  /** Two lines that are too long for it grow the file beyond its bound when there are no backups. */
  lemma NoBackupsNoBound(maxBytes: int, backups: int)
    requires backups <= 0
    ensures exists lines :: !Bounded(AddAll(lines, maxBytes, backups), maxBytes)
  {
    var line: Bytes := seq(if maxBytes >= 0 then maxBytes + 1 else 0, _ => 0);
    var lines := [line, line];
    NoBackupsNoRotation(lines, maxBytes, backups);
    var file := FileOf(AddAll(lines, maxBytes, backups), 0);
    assert file[..1] == [line] && [line][1..] == [];
    assert !Slim(file, maxBytes);
    assert !Bounded(AddAll(lines, maxBytes, backups), maxBytes);
  }

  /** The files stay within their bound, whatever is written, exactly when there is at least one backup. */
  lemma BoundedIffBackups(maxBytes: int, backups: int)
    ensures (forall lines :: Bounded(AddAll(lines, maxBytes, backups), maxBytes)) <==> backups > 0
  {
    if backups > 0 {
      forall lines
        ensures Bounded(AddAll(lines, maxBytes, backups), maxBytes)
      {
        HistoryIsSuffix(lines, maxBytes, backups);
      }
    } else {
      NoBackupsNoBound(maxBytes, backups);
    }
  }
}
