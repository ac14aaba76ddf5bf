/** The agent's spool directory: batches waiting for the server, listed oldest first. */
module Spool {

  datatype Batch = Batch(id: nat, size: nat)

  /** A spool file. Its name is the time stamp, with a suffix once the server has rejected it; the stamps
      have equal width, so the sorted listing is chronological. */
  datatype File = File(stamp: nat, rejected: bool, batch: Batch)

  predicate SameName(f: File, g: File) { f.stamp == g.stamp && f.rejected == g.rejected }

  predicate Before(f: File, g: File) { f.stamp < g.stamp || (f.stamp == g.stamp && !f.rejected && g.rejected) }

  /** Sorted, one file per stamp. */
  ghost predicate Tidy(files: seq<File>) {
    forall i, j :: 0 <= i < j < |files| ==> files[i].stamp < files[j].stamp
  }

  function Total(files: seq<File>): (r: nat) {
    if files == [] then 0 else files[0].batch.size + Total(files[1..])
  }

  predicate HasStamp(files: seq<File>, stamp: nat) {
    exists f :: f in files && f.stamp == stamp
  }

  predicate Named(f: File, stamp: nat, rejected: bool) { f.stamp == stamp && f.rejected == rejected }

  predicate HasName(files: seq<File>, stamp: nat, rejected: bool) {
    exists f :: f in files && Named(f, stamp, rejected)
  }

  /** os.WriteFile: in place of a file of the same name, or at its place in the listing. */
  function Put(files: seq<File>, f: File): (r: seq<File>) {
    if files == [] then [f]
    else if SameName(files[0], f) then [f] + files[1..]
    else if Before(files[0], f) then [files[0]] + Put(files[1..], f)
    else [f] + files
  }

  /** os.Remove by name; a missing file is ignored. */
  function Remove(files: seq<File>, stamp: nat, rejected: bool): (r: seq<File>) {
    if files == [] then []
    else if files[0].stamp == stamp && files[0].rejected == rejected then files[1..]
    else [files[0]] + Remove(files[1..], stamp, rejected)
  }

  /** os.Rename to the ".rejected" name; a missing file is ignored. */
  function Reject(files: seq<File>, stamp: nat): (r: seq<File>) {
    if files == [] then []
    else if files[0].stamp == stamp && !files[0].rejected then [files[0].(rejected := true)] + files[1..]
    else [files[0]] + Reject(files[1..], stamp)
  }

  // ---- What the operations keep ----

  lemma TidyTail(files: seq<File>)
    requires Tidy(files) && files != []
    ensures Tidy(files[1..]) && forall g :: g in files[1..] ==> files[0].stamp < g.stamp
  {
  }

  lemma TidyCons(f: File, rest: seq<File>)
    requires Tidy(rest) && forall g :: g in rest ==> f.stamp < g.stamp
    ensures Tidy([f] + rest)
  {
  }

  lemma Members(files: seq<File>, g: File)
    requires files != []
    ensures g in files <==> g == files[0] || g in files[1..]
  {
    assert files == [files[0]] + files[1..];
  }

  /** In a tidy listing a stamp identifies its file. */
  lemma StampUnique(files: seq<File>, f: File, g: File)
    requires Tidy(files) && f in files && g in files && f.stamp == g.stamp
    ensures f == g
  {
    var i :| 0 <= i < |files| && files[i] == f;
    var j :| 0 <= j < |files| && files[j] == g;
    assert i == j;
  }

  lemma {:induction false} PutFresh(files: seq<File>, f: File)
    requires Tidy(files) && !HasStamp(files, f.stamp)
    ensures Tidy(Put(files, f)) && Total(Put(files, f)) == Total(files) + f.batch.size
    ensures forall g :: g in Put(files, f) <==> g == f || g in files
  {
    if files != [] {
      var head, rest := files[0], files[1..];
      assert head in files && head.stamp != f.stamp;
      TidyTail(files);
      forall g ensures g in files <==> g == head || g in rest { Members(files, g); }
      if Before(head, f) {
        PutFresh(rest, f);
        TidyCons(head, Put(rest, f));
      } else {
        TidyCons(f, files);
      }
    }
  }

  /** Removing a name takes away exactly that file. */
  lemma {:induction false} RemoveExact(files: seq<File>, stamp: nat, rejected: bool)
    requires Tidy(files)
    ensures Tidy(Remove(files, stamp, rejected))
    ensures forall g :: g in Remove(files, stamp, rejected) <==> g in files && !Named(g, stamp, rejected)
  {
    if files != [] {
      var head, rest := files[0], files[1..];
      TidyTail(files);
      forall g ensures g in files <==> g == head || g in rest { Members(files, g); }
      if !Named(head, stamp, rejected) {
        RemoveExact(rest, stamp, rejected);
        TidyCons(head, Remove(rest, stamp, rejected));
      }
    }
  }

  lemma {:induction false} RemoveTotal(files: seq<File>, f: File)
    requires Tidy(files)
    ensures f in files ==> Total(Remove(files, f.stamp, f.rejected)) == Total(files) - f.batch.size
    ensures !HasName(files, f.stamp, f.rejected) ==> Remove(files, f.stamp, f.rejected) == files
  {
    if files != [] {
      var head, rest := files[0], files[1..];
      TidyTail(files);
      Members(files, f);
      assert head in files;
      forall g | g in rest ensures g in files { Members(files, g); }
      if Named(head, f.stamp, f.rejected) {
        if f in files { StampUnique(files, f, head); }
      } else {
        RemoveTotal(rest, f);
      }
    }
  }

  /** Rejecting a name re-labels exactly that file. */
  lemma {:induction false} RejectExact(files: seq<File>, stamp: nat)
    requires Tidy(files)
    ensures Tidy(Reject(files, stamp)) && Total(Reject(files, stamp)) == Total(files)
    ensures forall g :: g in Reject(files, stamp) <==>
      (g in files && !Named(g, stamp, false)) || (Named(g, stamp, true) && g.(rejected := false) in files)
  {
    if files != [] {
      var head, rest := files[0], files[1..];
      TidyTail(files);
      forall g ensures g in files <==> g == head || g in rest { Members(files, g); }
      if Named(head, stamp, false) {
        TidyCons(head.(rejected := true), rest);
      } else {
        RejectExact(rest, stamp);
        TidyCons(head, Reject(rest, stamp));
      }
    }
  }

  /** The size of a listing, as the prune adds it up. */
  method Sum(files: seq<File>) returns (total: nat)
    ensures total == Total(files)
  {
    total := 0;
    for i := 0 to |files|
      invariant Total(files) == total + Total(files[i..])
    {
      assert files[i..][1..] == files[i + 1..];
      total := total + files[i].batch.size;
    }
  }
}
