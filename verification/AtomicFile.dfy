/**
 The crash-safe file replacement of `crates/latchgate-core/src/atomic.rs`: write a temporary file,
 sync it, rename it over the target.

 The disk keeps file contents by inode and remembers every directory version since the last restart.
 A process crash stops the writer between any two operations. A power loss in addition keeps only
 synced contents, and may bring back any earlier version of the directory, because the directory
 itself is never synced.
 */
module AtomicFile {

  datatype Name = Target | Temp

  datatype Inode = Inode(data: string, synced: bool)

  /** `dirs` is never empty; its last element is the current directory. */
  datatype Disk = Disk(inodes: map<nat, Inode>, dirs: seq<map<Name, nat>>, next: nat)

  datatype FileOp = Create | Append(chunk: string) | Sync | Rename

  function Current(d: Disk): map<Name, nat>
    requires d.dirs != []
  {
    d.dirs[|d.dirs| - 1]
  }

  /** The temporary file exists. */
  predicate HasTemp(d: Disk) {
    d.dirs != [] && Temp in Current(d) && Current(d)[Temp] in d.inodes
  }

  /** Opening for writing truncates an existing temporary file, or makes a new one. */
  function Apply(d: Disk, op: FileOp): Disk
    requires d.dirs != []
  {
    match op
    case Create =>
      if HasTemp(d) then d.(inodes := d.inodes[Current(d)[Temp] := Inode("", false)])
      else Disk(d.inodes[d.next := Inode("", false)], d.dirs + [Current(d)[Temp := d.next]], d.next + 1)
    case Append(chunk) =>
      if !HasTemp(d) then d
      else
        var t := Current(d)[Temp];
        d.(inodes := d.inodes[t := Inode(d.inodes[t].data + chunk, false)])
    case Sync =>
      if !HasTemp(d) then d
      else
        var t := Current(d)[Temp];
        d.(inodes := d.inodes[t := d.inodes[t].(synced := true)])
    case Rename =>
      if !HasTemp(d) then d
      else d.(dirs := d.dirs + [(Current(d) - {Temp})[Target := Current(d)[Temp]]])
  }

  function Exec(d: Disk, ops: seq<FileOp>): (r: Disk)
    requires d.dirs != []
    ensures r.dirs != []
  {
    if ops == [] then d else Apply(Exec(d, ops[..|ops| - 1]), ops[|ops| - 1])
  }

  function Concat(chunks: seq<string>): string {
    if chunks == [] then "" else Concat(chunks[..|chunks| - 1]) + chunks[|chunks| - 1]
  }

  /** Create, write everything in as many pieces as the kernel takes, sync, rename. */
  function Program(chunks: seq<string>): seq<FileOp> {
    [Create] + seq(|chunks|, i requires 0 <= i < |chunks| => Append(chunks[i])) + [Sync, Rename]
  }

  /** What a reader of the target sees. */
  function Visible(d: Disk): string
    requires d.dirs != [] && Target in Current(d) && Current(d)[Target] in d.inodes
  {
    d.inodes[Current(d)[Target]].data
  }

  // ---------------------------------------------------------------------------------------------
  // The invariant
  // ---------------------------------------------------------------------------------------------

  /** In this directory version the target is a synced file with one of the given contents. */
  predicate TargetOk(d: Disk, dir: map<Name, nat>, docs: set<string>) {
    Target in dir && dir[Target] in d.inodes && d.inodes[dir[Target]].synced && d.inodes[dir[Target]].data in docs
  }

  /** No version's temporary file is the target of that or an earlier version. */
  ghost predicate Apart(d: Disk) {
    forall i, j :: 0 <= i <= j < |d.dirs| && Target in d.dirs[i] && Temp in d.dirs[j] ==>
      d.dirs[i][Target] != d.dirs[j][Temp]
  }

  ghost predicate Good(d: Disk, docs: set<string>) {
    && d.dirs != []
    && (forall i :: 0 <= i < |d.dirs| ==> TargetOk(d, d.dirs[i], docs))
    && (forall i :: 0 <= i < |d.dirs| && Temp in d.dirs[i] ==> d.dirs[i][Temp] in d.inodes)
    && (forall n :: n in d.inodes ==> n < d.next)
    && Apart(d)
  }

  lemma WriteTempKeepsGood(d: Disk, docs: set<string>, inode: Inode)
    requires Good(d, docs) && HasTemp(d)
    ensures Good(d.(inodes := d.inodes[Current(d)[Temp] := inode]), docs)
  {
    var e := d.(inodes := d.inodes[Current(d)[Temp] := inode]);
    forall i | 0 <= i < |d.dirs| ensures TargetOk(e, e.dirs[i], docs) {
      assert TargetOk(d, d.dirs[i], docs);
    }
  }

  lemma NewTempKeepsGood(d: Disk, docs: set<string>)
    requires Good(d, docs) && !HasTemp(d)
    ensures Good(Apply(d, Create), docs)
  {
    var e := Apply(d, Create);
    forall i | 0 <= i < |e.dirs| ensures TargetOk(e, e.dirs[i], docs) {
      var j := if i < |d.dirs| then i else |d.dirs| - 1;
      assert TargetOk(d, d.dirs[j], docs);
    }
    forall i, j | 0 <= i <= j < |e.dirs| && Target in e.dirs[i] && Temp in e.dirs[j]
      ensures e.dirs[i][Target] != e.dirs[j][Temp]
    {
      var k := if i < |d.dirs| then i else |d.dirs| - 1;
      assert TargetOk(d, d.dirs[k], docs);
    }
  }

  lemma RenameKeepsGood(d: Disk, docs: set<string>)
    requires Good(d, docs) && HasTemp(d) && d.inodes[Current(d)[Temp]].synced && d.inodes[Current(d)[Temp]].data in docs
    ensures Good(Apply(d, Rename), docs)
  {
    var e := Apply(d, Rename);
    forall i | 0 <= i < |e.dirs| ensures TargetOk(e, e.dirs[i], docs) {
      if i < |d.dirs| { assert TargetOk(d, d.dirs[i], docs); }
    }
  }

  lemma MoreDocs(d: Disk, docs: set<string>, more: set<string>)
    requires Good(d, docs) && docs <= more
    ensures Good(d, more)
  {
    forall i | 0 <= i < |d.dirs| ensures TargetOk(d, d.dirs[i], more) {
      assert TargetOk(d, d.dirs[i], docs);
    }
  }

  // ---------------------------------------------------------------------------------------------
  // One write, stopped anywhere
  // ---------------------------------------------------------------------------------------------

  /** The disk during a write whose first `k` chunks are in the temporary file. */
  ghost predicate Writing(d: Disk, docs: set<string>, seen: string, text: string) {
    Good(d, docs) && HasTemp(d) && d.inodes[Current(d)[Temp]].data == text && Visible(d) == seen
  }

  lemma CreateStarts(d: Disk, docs: set<string>)
    requires Good(d, docs)
    ensures TargetOk(d, Current(d), docs)
    ensures Writing(Apply(d, Create), docs, Visible(d), "")
  {
    assert TargetOk(d, d.dirs[|d.dirs| - 1], docs);
    if HasTemp(d) {
      WriteTempKeepsGood(d, docs, Inode("", false));
    } else {
      NewTempKeepsGood(d, docs);
    }
  }

  lemma AppendWrites(d: Disk, docs: set<string>, seen: string, text: string, chunk: string)
    requires Writing(d, docs, seen, text)
    ensures Writing(Apply(d, Append(chunk)), docs, seen, text + chunk)
  {
    WriteTempKeepsGood(d, docs, Inode(text + chunk, false));
    assert TargetOk(d, d.dirs[|d.dirs| - 1], docs);
  }

  lemma SyncWrites(d: Disk, docs: set<string>, seen: string, text: string)
    requires Writing(d, docs, seen, text)
    ensures Writing(Apply(d, Sync), docs, seen, text) && Apply(d, Sync).inodes[Current(d)[Temp]].synced
  {
    WriteTempKeepsGood(d, docs, Inode(text, true));
    assert TargetOk(d, d.dirs[|d.dirs| - 1], docs);
  }

  lemma RenameShows(d: Disk, docs: set<string>, seen: string, text: string)
    requires Writing(d, docs, seen, text) && d.inodes[Current(d)[Temp]].synced
    ensures var e := Apply(d, Rename);
            Good(e, docs + {text}) && TargetOk(e, Current(e), docs + {text}) && Visible(e) == text && !HasTemp(e)
  {
    MoreDocs(d, docs, docs + {text});
    RenameKeepsGood(d, docs + {text});
    var e := Apply(d, Rename);
    assert TargetOk(e, e.dirs[|e.dirs| - 1], docs + {text});
  }

  lemma {:induction false} ChunksWritten(d: Disk, docs: set<string>, chunks: seq<string>, k: nat)
    requires Good(d, docs) && k <= |chunks|
    ensures TargetOk(d, Current(d), docs)
    ensures Writing(Exec(d, Program(chunks)[..1 + k]), docs, Visible(d), Concat(chunks[..k]))
  {
    var ops := Program(chunks)[..1 + k];
    CreateStarts(d, docs);
    if k == 0 {
      assert ops == [Create] && ops[..0] == [];
      assert Exec(d, []) == d;
    } else {
      ChunksWritten(d, docs, chunks, k - 1);
      assert ops[..|ops| - 1] == Program(chunks)[..k] && ops[|ops| - 1] == Append(chunks[k - 1]);
      assert chunks[..k][..k - 1] == chunks[..k - 1];
      AppendWrites(Exec(d, Program(chunks)[..k]), docs, Visible(d), Concat(chunks[..k - 1]), chunks[k - 1]);
    }
  }

  lemma LastOps(d: Disk, chunks: seq<string>)
    requires d.dirs != []
    ensures var ops, n := Program(chunks), |chunks|;
            && Exec(d, ops[..n + 2]) == Apply(Exec(d, ops[..n + 1]), Sync)
            && Exec(d, ops[..n + 3]) == Apply(Exec(d, ops[..n + 2]), Rename)
  {
    var ops, n := Program(chunks), |chunks|;
    assert ops[..n + 2][..n + 1] == ops[..n + 1] && ops[..n + 2][n + 1] == Sync;
    assert ops[..n + 3][..n + 2] == ops[..n + 2] && ops[..n + 3][n + 2] == Rename;
  }

  /** The number of operations in a whole write. */
  function Length(chunks: seq<string>): nat {
    |chunks| + 3
  }

  /**
   A write stopped after any number of operations leaves the target as it was; a finished write
   leaves it with exactly the new contents and no temporary file.
   */
  lemma {:induction false} WriteIsAtomic(d: Disk, docs: set<string>, chunks: seq<string>, cut: nat)
    requires Good(d, docs) && cut <= Length(chunks)
    ensures var e := Exec(d, Program(chunks)[..cut]);
            && TargetOk(d, Current(d), docs)
            && Good(e, if cut == Length(chunks) then docs + {Concat(chunks)} else docs)
            && Target in Current(e) && Current(e)[Target] in e.inodes
            && Visible(e) == (if cut == Length(chunks) then Concat(chunks) else Visible(d))
            && (cut == Length(chunks) ==> !HasTemp(e))
  {
    assert TargetOk(d, d.dirs[|d.dirs| - 1], docs);
    if cut == 0 {
      assert Program(chunks)[..0] == [];
    } else if cut <= |chunks| + 1 {
      ChunksWritten(d, docs, chunks, cut - 1);
      StillOld(Exec(d, Program(chunks)[..cut]), docs, Visible(d), Concat(chunks[..cut - 1]));
    } else {
      SyncedAndRenamed(d, docs, chunks);
    }
  }

  lemma StillOld(d: Disk, docs: set<string>, seen: string, text: string)
    requires Writing(d, docs, seen, text)
    ensures TargetOk(d, Current(d), docs) && Visible(d) == seen
  {
    assert TargetOk(d, d.dirs[|d.dirs| - 1], docs);
  }

  lemma {:induction false} SyncedAndRenamed(d: Disk, docs: set<string>, chunks: seq<string>)
    requires Good(d, docs)
    ensures TargetOk(d, Current(d), docs)
    ensures var e := Exec(d, Program(chunks)[..|chunks| + 2]);
            Good(e, docs) && TargetOk(e, Current(e), docs) && Visible(e) == Visible(d)
    ensures var e, text := Exec(d, Program(chunks)[..|chunks| + 3]), Concat(chunks);
            Good(e, docs + {text}) && TargetOk(e, Current(e), docs + {text}) && Visible(e) == text && !HasTemp(e)
  {
    assert TargetOk(d, d.dirs[|d.dirs| - 1], docs);
    var n, text := |chunks|, Concat(chunks);
    ChunksWritten(d, docs, chunks, n);
    assert chunks[..n] == chunks;
    var w := Exec(d, Program(chunks)[..n + 1]);
    LastOps(d, chunks);
    SyncWrites(w, docs, Visible(d), text);
    StillOld(Apply(w, Sync), docs, Visible(d), text);
    RenameShows(Apply(w, Sync), docs, Visible(d), text);
  }

  class FileSystem {
    var disk: Disk

    constructor (initial: Disk)
      ensures disk == initial
    {
      disk := initial;
    }

    method Do(op: FileOp, budget: nat) returns (left: nat)
      requires disk.dirs != [] && budget > 0
      modifies this
      ensures disk == Apply(old(disk), op) && disk.dirs != [] && left == budget - 1
    {
      disk := Apply(disk, op);
      left := budget - 1;
    }

    /** `write_all`: one piece after the other. */
    method WriteAll(chunks: seq<string>, budget: nat, ghost start: Disk) returns (left: nat, done: bool)
      requires start.dirs != [] && disk.dirs != [] && disk == Exec(start, Program(chunks)[..1])
      modifies this
      ensures done <==> |chunks| <= budget
      ensures disk.dirs != [] && left == (if done then budget - |chunks| else 0)
      ensures disk == Exec(start, Program(chunks)[..1 + budget - left])
    {
      ghost var ops := Program(chunks);
      left := budget;
      for i := 0 to |chunks|
        invariant left == budget - i && disk.dirs != [] && disk == Exec(start, ops[..1 + i])
      {
        if left == 0 { return left, false; }
        left := Do(Append(chunks[i]), left);
        assert ops[..2 + i][..1 + i] == ops[..1 + i];
      }
      return left, true;
    }

    /**
     `budget` is the number of operations after which the process dies or an operation fails. The
     call reports success only if the rename was done.
     */
    method AtomicWrite(chunks: seq<string>, budget: nat, ghost docs: set<string>) returns (done: bool)
      requires Good(disk, docs)
      modifies this
      ensures done <==> Length(chunks) <= budget
      ensures disk == Exec(old(disk), Program(chunks)[..if done then Length(chunks) else budget])
      ensures Good(disk, if done then docs + {Concat(chunks)} else docs)
      ensures TargetOk(old(disk), Current(old(disk)), docs)
      ensures Target in Current(disk) && Current(disk)[Target] in disk.inodes
      ensures Visible(disk) == if done then Concat(chunks) else Visible(old(disk))
    {
      ghost var ops := Program(chunks);
      WriteIsAtomic(disk, docs, chunks, if Length(chunks) <= budget then Length(chunks) else budget);
      assert ops[..0] == [];
      var left := budget;
      if left == 0 { return false; }
      left := Do(Create, left);
      assert ops[..1] == [Create];
      var written;
      left, written := WriteAll(chunks, left, old(disk));
      if !written || left == 0 { return false; }
      left := Do(Sync, left);
      assert ops[..|chunks| + 2][..|chunks| + 1] == ops[..|chunks| + 1];
      if left == 0 { return false; }
      left := Do(Rename, left);
      assert ops[..|chunks| + 3][..|chunks| + 2] == ops[..|chunks| + 2];
      return true;
    }
  }

  // ---------------------------------------------------------------------------------------------
  // Histories: writes stopped anywhere, and power losses
  // ---------------------------------------------------------------------------------------------

  datatype Incident =
    | Attempt(chunks: seq<string>, cut: nat)
    | PowerLoss(version: nat, junk: map<nat, string>)

  /** The directory is some earlier version; what was not synced is anything. */
  function LosePower(d: Disk, version: nat, junk: map<nat, string>): Disk
    requires version < |d.dirs|
  {
    var kept := map n | n in d.inodes ::
        if d.inodes[n].synced then d.inodes[n] else Inode(if n in junk then junk[n] else "", true);
    Disk(kept, [d.dirs[version]], d.next)
  }

  predicate Finished(x: Incident) {
    x.Attempt? && Length(x.chunks) <= x.cut
  }

  function After(d: Disk, hist: seq<Incident>): (r: Disk)
    requires d.dirs != []
    ensures r.dirs != []
  {
    if hist == [] then d
    else
      var e := After(d, hist[..|hist| - 1]);
      match hist[|hist| - 1]
      case Attempt(chunks, cut) => Exec(e, Program(chunks)[..if cut <= Length(chunks) then cut else Length(chunks)])
      case PowerLoss(version, junk) => if version < |e.dirs| then LosePower(e, version, junk) else e
  }

  /** The contents of all finished writes. */
  function Written(hist: seq<Incident>): set<string> {
    if hist == [] then {}
    else Written(hist[..|hist| - 1]) + var x := hist[|hist| - 1]; if Finished(x) then {Concat(x.chunks)} else {}
  }

  function LastWritten(first: string, hist: seq<Incident>): string {
    if hist == [] then first
    else
      var x := hist[|hist| - 1];
      if Finished(x) then Concat(x.chunks) else LastWritten(first, hist[..|hist| - 1])
  }

  function Fresh(first: string): Disk {
    Disk(map[0 := Inode(first, true)], [map[Target := 0]], 1)
  }

  lemma PowerLossKeepsGood(d: Disk, docs: set<string>, version: nat, junk: map<nat, string>)
    requires Good(d, docs) && version < |d.dirs|
    ensures Good(LosePower(d, version, junk), docs)
  {
    assert TargetOk(d, d.dirs[version], docs);
  }

  lemma {:induction false} GoodAfter(first: string, hist: seq<Incident>)
    ensures Good(After(Fresh(first), hist), {first} + Written(hist))
  {
    if hist == [] {
      assert TargetOk(Fresh(first), Fresh(first).dirs[0], {first});
    } else {
      var before, x := hist[..|hist| - 1], hist[|hist| - 1];
      GoodAfter(first, before);
      var d, docs := After(Fresh(first), before), {first} + Written(before);
      match x
      case Attempt(chunks, cut) =>
        var stop := if cut <= Length(chunks) then cut else Length(chunks);
        WriteIsAtomic(d, docs, chunks, stop);
        assert Finished(x) ==> docs + {Concat(chunks)} == {first} + Written(hist);
        assert !Finished(x) ==> docs == {first} + Written(hist);
      case PowerLoss(version, junk) =>
        assert docs == {first} + Written(hist);
        if version < |d.dirs| {
          PowerLossKeepsGood(d, docs, version, junk);
        }
    }
  }

  /**
   Through any history of interrupted writes and power losses, the target holds one complete
   document: the first one, or the contents of a finished write. Never a partial one.
   */
  lemma NeverPartial(first: string, hist: seq<Incident>)
    ensures var d := After(Fresh(first), hist);
            Target in Current(d) && Current(d)[Target] in d.inodes && Visible(d) in {first} + Written(hist)
  {
    GoodAfter(first, hist);
    var d := After(Fresh(first), hist);
    assert TargetOk(d, d.dirs[|d.dirs| - 1], {first} + Written(hist));
  }

  /** The target holds the last finished write. */
  ghost predicate Durable(first: string, hist: seq<Incident>) {
    var d := After(Fresh(first), hist);
    Target in Current(d) && Current(d)[Target] in d.inodes && Visible(d) == LastWritten(first, hist)
  }

  lemma {:induction false} LastFinishedWins(first: string, hist: seq<Incident>)
    requires forall x :: x in hist ==> x.Attempt?
    ensures Durable(first, hist)
  {
    if hist != [] {
      var before, x := hist[..|hist| - 1], hist[|hist| - 1];
      LastFinishedWins(first, before);
      GoodAfter(first, before);
      assert x in hist;
      var stop := if x.cut <= Length(x.chunks) then x.cut else Length(x.chunks);
      WriteIsAtomic(After(Fresh(first), before), {first} + Written(before), x.chunks, stop);
    }
  }

  /** Directory versions are only added, and a file that is not the temporary one is not changed. */
  lemma {:induction false} OtherFilesStay(d: Disk, ops: seq<FileOp>, t: nat)
    requires d.dirs != [] && t in d.inodes && t < d.next && (Temp in Current(d) ==> Current(d)[Temp] != t)
    ensures var e := Exec(d, ops);
            && d.dirs <= e.dirs
            && t < e.next && t in e.inodes && e.inodes[t] == d.inodes[t]
            && (Temp in Current(e) ==> Current(e)[Temp] != t)
  {
    if ops != [] {
      OtherFilesStay(d, ops[..|ops| - 1], t);
      OtherFileStays(Exec(d, ops[..|ops| - 1]), ops[|ops| - 1], t);
    }
  }

  lemma OtherFileStays(d: Disk, op: FileOp, t: nat)
    requires d.dirs != [] && t in d.inodes && t < d.next && (Temp in Current(d) ==> Current(d)[Temp] != t)
    ensures var e := Apply(d, op);
            && d.dirs <= e.dirs
            && t < e.next && t in e.inodes && e.inodes[t] == d.inodes[t]
            && (Temp in Current(e) ==> Current(e)[Temp] != t)
  {
  }

  /** After any finished write, a power loss can bring back what was visible before it. */
  lemma PowerLossCanUndoAWrite(d: Disk, docs: set<string>, chunks: seq<string>, junk: map<nat, string>)
    requires Good(d, docs)
    ensures TargetOk(d, Current(d), docs)
    ensures var e := Exec(d, Program(chunks)[..Length(chunks)]);
            && |d.dirs| <= |e.dirs|
            && var f := LosePower(e, |d.dirs| - 1, junk);
            Target in Current(f) && Current(f)[Target] in f.inodes && Visible(f) == Visible(d)
  {
    var v := |d.dirs| - 1;
    assert TargetOk(d, d.dirs[v], docs);
    var t := d.dirs[v][Target];
    OtherFilesStay(d, Program(chunks)[..Length(chunks)], t);
    var e := Exec(d, Program(chunks)[..Length(chunks)]);
  }

  lemma UndoneWrite(write: Incident, loss: Incident)
    requires write == Attempt(["new"], 4) && loss == PowerLoss(0, map[])
    ensures !Durable("old", [write, loss])
  {
    var d, hist := Fresh("old"), [write, loss];
    assert ["new"][..0] == [];
    assert Concat([]) == "";
    assert Concat(["new"]) == "new";
    assert hist[..1] == [write] && [write][..0] == [];
    assert After(d, []) == d;
    assert After(d, [write]) == Exec(d, Program(["new"])[..4]);
    GoodAfter("old", []);
    PowerLossCanUndoAWrite(d, {"old"} + Written([]), ["new"], map[]);
    assert Visible(d) == "old";
    assert LastWritten("old", hist) == LastWritten("old", [write]);
  }

  /**
   The last finished write is the visible one in every history exactly if histories contain no power
   loss: the rename is not followed by a sync of the directory.
   */
  lemma DurableExactly(powerLosses: bool)
    ensures (forall first, hist: seq<Incident> ::
               (forall x :: x in hist && x.PowerLoss? ==> powerLosses) ==> Durable(first, hist)) <==> !powerLosses
  {
    if powerLosses {
      UndoneWrite(Attempt(["new"], 4), PowerLoss(0, map[]));
    } else {
      forall first, hist: seq<Incident> | forall x :: x in hist && x.PowerLoss? ==> powerLosses
        ensures Durable(first, hist)
      {
        LastFinishedWins(first, hist);
      }
    }
  }

  // ---------------------------------------------------------------------------------------------
  // Which write a history shows
  // ---------------------------------------------------------------------------------------------

  /** The first contents and those of the finished writes, in order. */
  function Texts(first: string, hist: seq<Incident>): (texts: seq<string>)
    ensures texts != []
  {
    if hist == [] then [first]
    else
      var x := hist[|hist| - 1];
      Texts(first, hist[..|hist| - 1]) + if Finished(x) then [Concat(x.chunks)] else []
  }

  /** What a write does to the directory versions: one for a new temporary file, one for the rename. */
  function Added(d: Disk, x: Incident, last: nat, next: nat): seq<nat>
    requires x.Attempt?
  {
    (if x.cut > 0 && !HasTemp(d) then [last] else []) + (if Finished(x) then [next] else [])
  }

  /** For each directory version on the disk, the number of the write it shows. */
  ghost function Labels(first: string, hist: seq<Incident>): (labels: seq<nat>)
    ensures labels != []
  {
    if hist == [] then [0]
    else
      var before, x := hist[..|hist| - 1], hist[|hist| - 1];
      var labels, d := Labels(first, before), After(Fresh(first), before);
      match x
      case Attempt(_, _) => labels + Added(d, x, labels[|labels| - 1], |Texts(first, before)|)
      case PowerLoss(version, _) => if version < |labels| then [labels[version]] else labels
  }

  /** Every directory version shows the text its label says. */
  ghost predicate Labelled(d: Disk, labels: seq<nat>, texts: seq<string>) {
    && |labels| == |d.dirs|
    && forall i :: 0 <= i < |labels| ==> ShowsText(d, d.dirs[i], labels[i], texts)
  }

  predicate ShowsText(d: Disk, dir: map<Name, nat>, number: nat, texts: seq<string>) {
    && number < |texts| && Target in dir && dir[Target] in d.inodes && d.inodes[dir[Target]].synced
    && d.inodes[dir[Target]].data == texts[number]
  }

  lemma {:induction false} OnlyCreateAndRenameAdd(d: Disk, chunks: seq<string>, cut: nat)
    requires d.dirs != [] && 0 < cut < Length(chunks)
    requires Temp in Current(d) ==> Current(d)[Temp] in d.inodes
    ensures var e := Exec(d, Program(chunks)[..cut]);
            e.dirs == Apply(d, Create).dirs && HasTemp(e)
  {
    var ops := Program(chunks)[..cut];
    if cut == 1 {
      assert ops == [Create] && ops[..0] == [];
      assert Exec(d, []) == d;
    } else {
      assert ops[..cut - 1] == Program(chunks)[..cut - 1];
      OnlyCreateAndRenameAdd(d, chunks, cut - 1);
      assert ops[cut - 1].Append? || ops[cut - 1].Sync?;
    }
  }

  /** The directory versions after a write, cut anywhere. */
  lemma {:induction false} DirsAfterWrite(d: Disk, chunks: seq<string>, cut: nat)
    requires d.dirs != [] && cut <= Length(chunks)
    requires Temp in Current(d) ==> Current(d)[Temp] in d.inodes
    ensures var e := Exec(d, Program(chunks)[..cut]);
            && |e.dirs| == |d.dirs| + (if cut > 0 && !HasTemp(d) then 1 else 0) + (if cut == Length(chunks) then 1 else 0)
            && (cut > 0 && !HasTemp(d) ==> |d.dirs| < |e.dirs| && e.dirs[|d.dirs|] == Current(d)[Temp := d.next])
  {
    var ops := Program(chunks)[..cut];
    if cut == 0 {
      assert ops == [];
    } else if cut < Length(chunks) {
      OnlyCreateAndRenameAdd(d, chunks, cut);
    } else {
      OnlyCreateAndRenameAdd(d, chunks, cut - 1);
      assert ops[..cut - 1] == Program(chunks)[..cut - 1] && ops[cut - 1] == Rename;
    }
  }

  lemma {:induction false} LabelStays(d: Disk, docs: set<string>, labels: seq<nat>, texts: seq<string>, ops: seq<FileOp>, i: nat)
    requires Good(d, docs) && Labelled(d, labels, texts) && i < |labels|
    ensures var e := Exec(d, ops);
            d.dirs <= e.dirs && ShowsText(e, d.dirs[i], labels[i], texts)
  {
    assert ShowsText(d, d.dirs[i], labels[i], texts);
    OtherFilesStay(d, ops, d.dirs[i][Target]);
  }

  lemma MoreTexts(d: Disk, dir: map<Name, nat>, number: nat, texts: seq<string>, more: seq<string>)
    requires ShowsText(d, dir, number, texts)
    ensures ShowsText(d, dir, number, texts + more)
  {
  }

  lemma {:induction false} WriteLabelled(d: Disk, docs: set<string>, labels: seq<nat>, texts: seq<string>, x: Incident)
    requires Good(d, docs) && Labelled(d, labels, texts) && x.Attempt?
    ensures var stop := if x.cut <= Length(x.chunks) then x.cut else Length(x.chunks);
            Labelled(Exec(d, Program(x.chunks)[..stop]), labels + Added(d, x, labels[|labels| - 1], |texts|),
                     texts + if Finished(x) then [Concat(x.chunks)] else [])
  {
    var stop := if x.cut <= Length(x.chunks) then x.cut else Length(x.chunks);
    var ops := Program(x.chunks)[..stop];
    var e, n := Exec(d, ops), |labels|;
    var more := if Finished(x) then [Concat(x.chunks)] else [];
    DirsAfterWrite(d, x.chunks, stop);
    WriteIsAtomic(d, docs, x.chunks, stop);
    assert ShowsText(d, d.dirs[n - 1], labels[n - 1], texts);
    forall i | 0 <= i < n ensures d.dirs <= e.dirs && ShowsText(e, d.dirs[i], labels[i], texts + more) {
      LabelStays(d, docs, labels, texts, ops, i);
      MoreTexts(e, d.dirs[i], labels[i], texts, more);
    }
    if Finished(x) {
      assert TargetOk(e, e.dirs[|e.dirs| - 1], docs + {Concat(x.chunks)});
      assert ShowsText(e, Current(e), |texts|, texts + more);
    }
    NewLabels(d, e, labels, Added(d, x, labels[n - 1], |texts|), texts + more, x);
  }

  lemma NewLabels(d: Disk, e: Disk, labels: seq<nat>, added: seq<nat>, texts: seq<string>, x: Incident)
    requires x.Attempt? && |labels| == |d.dirs| > 0 && d.dirs <= e.dirs && texts != []
    requires added == Added(d, x, labels[|labels| - 1], |texts| - 1) && |e.dirs| == |d.dirs| + |added|
    requires forall i :: 0 <= i < |labels| ==> ShowsText(e, d.dirs[i], labels[i], texts)
    requires x.cut > 0 && !HasTemp(d) ==> e.dirs[|d.dirs|] == Current(d)[Temp := d.next]
    requires Finished(x) ==> ShowsText(e, Current(e), |texts| - 1, texts)
    ensures Labelled(e, labels + added, texts)
  {
    var n := |labels|;
    assert ShowsText(e, d.dirs[n - 1], labels[n - 1], texts);
    forall i | 0 <= i < n + |added| ensures ShowsText(e, e.dirs[i], (labels + added)[i], texts) {
      if i < n {
        assert ShowsText(e, d.dirs[i], labels[i], texts);
      }
    }
  }

  lemma {:induction false} LabelsHold(first: string, hist: seq<Incident>)
    ensures Labelled(After(Fresh(first), hist), Labels(first, hist), Texts(first, hist))
  {
    if hist == [] {
      assert ShowsText(Fresh(first), Fresh(first).dirs[0], 0, [first]);
    } else {
      var before, x := hist[..|hist| - 1], hist[|hist| - 1];
      LabelsHold(first, before);
      GoodAfter(first, before);
      var d, labels, texts := After(Fresh(first), before), Labels(first, before), Texts(first, before);
      match x
      case Attempt(_, _) =>
        WriteLabelled(d, {first} + Written(before), labels, texts, x);
      case PowerLoss(version, junk) =>
        assert texts + [] == texts;
        if version < |labels| {
          assert ShowsText(d, d.dirs[version], labels[version], texts);
        }
    }
  }

  /** The write whose directory version has survived. */
  ghost function Survivor(first: string, hist: seq<Incident>): nat {
    var labels := Labels(first, hist); labels[|labels| - 1]
  }

  lemma {:induction false} LastText(first: string, hist: seq<Incident>)
    ensures var texts := Texts(first, hist); LastWritten(first, hist) == texts[|texts| - 1]
  {
    if hist != [] {
      LastText(first, hist[..|hist| - 1]);
      assert Texts(first, hist[..|hist| - 1]) + [] == Texts(first, hist[..|hist| - 1]);
    }
  }

  /**
   After any history the target shows exactly the write whose directory version survived the power
   losses. So, if no two writes had the same contents, the last finished write is visible if and only
   if each power loss since then kept a directory version that shows it.
   */
  lemma {:induction false} SurvivorIsVisible(first: string, hist: seq<Incident>)
    ensures var d, texts := After(Fresh(first), hist), Texts(first, hist);
            && Target in Current(d) && Current(d)[Target] in d.inodes && Survivor(first, hist) < |texts|
            && Visible(d) == texts[Survivor(first, hist)]
            && ((forall i, j :: 0 <= i < j < |texts| ==> texts[i] != texts[j]) ==>
                (Durable(first, hist) <==> Survivor(first, hist) == |texts| - 1))
  {
    LabelsHold(first, hist);
    LastText(first, hist);
    var d, labels, texts := After(Fresh(first), hist), Labels(first, hist), Texts(first, hist);
    assert ShowsText(d, d.dirs[|labels| - 1], labels[|labels| - 1], texts);
  }
}
