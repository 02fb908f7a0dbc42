/**
 Policy requests on the file they edit: read and decode the file, answer, encode, and replace the file
 by the crash-safe write. The process may die between any two file operations and the power may fail.

 The serialiser is foreign: any `encode` and `decode` will do for which decoding undoes encoding.
 */
module PolicyStore {
  import opened Wrappers
  import opened Json
  import opened Policy
  import opened PolicyRuns
  import AtomicFile

  /** `sizes` says in what pieces the kernel takes the text, `cut` how many file operations are done. */
  datatype Event =
    | Serve(request: Request, sizes: seq<nat>, cut: nat)
    | PowerLoss(version: nat, junk: map<nat, string>)

  datatype Codec = Codec(encode: Value -> string, decode: string -> Option<Value>)

  ghost predicate Inverse(codec: Codec) {
    forall doc :: codec.decode(codec.encode(doc)) == Some(doc)
  }

  function Pieces(text: string, sizes: seq<nat>): (pieces: seq<string>)
    ensures |pieces| == |sizes| + 1
    decreases |sizes|
  {
    if sizes == [] then [text]
    else
      var n := sizes[|sizes| - 1];
      var cut := if n <= |text| then |text| - n else 0;
      Pieces(text[..cut], sizes[..|sizes| - 1]) + [text[cut..]]
  }

  lemma {:induction false} PiecesJoin(text: string, sizes: seq<nat>)
    ensures AtomicFile.Concat(Pieces(text, sizes)) == text
    decreases |sizes|
  {
    var pieces := Pieces(text, sizes);
    var last := |pieces| - 1;
    if sizes == [] {
      assert pieces[..last] == [];
      assert AtomicFile.Concat([]) == "";
    } else {
      var n := sizes[|sizes| - 1];
      var cut := if n <= |text| then |text| - n else 0;
      PiecesJoin(text[..cut], sizes[..|sizes| - 1]);
      assert pieces[..last] == Pieces(text[..cut], sizes[..|sizes| - 1]);
      assert text == text[..cut] + text[cut..];
    }
  }

  /** All file operations were done, the rename included. */
  predicate Completed(x: Event) {
    x.Serve? && |x.sizes| + 4 <= x.cut
  }

  function Shown(d: AtomicFile.Disk): Option<string> {
    if d.dirs != [] && AtomicFile.Target in AtomicFile.Current(d) && AtomicFile.Current(d)[AtomicFile.Target] in d.inodes
    then Some(AtomicFile.Visible(d)) else None
  }

  function WriteOps(x: Event, text: string): seq<AtomicFile.FileOp>
    requires x.Serve?
  {
    var ops := AtomicFile.Program(Pieces(text, x.sizes));
    if x.cut <= |ops| then ops[..x.cut] else ops
  }

  ghost function Step(codec: Codec, d: AtomicFile.Disk, x: Event): (r: AtomicFile.Disk)
    requires d.dirs != []
    ensures r.dirs != []
  {
    match x
    case PowerLoss(version, junk) => if version < |d.dirs| then AtomicFile.LosePower(d, version, junk) else d
    case Serve(request, _, _) =>
      var text := Shown(d);
      var doc := if text.None? then None else codec.decode(text.value);
      if doc.None? then d
      else
        var out := Answer(doc.value, request);
        if out.Written? then AtomicFile.Exec(d, WriteOps(x, codec.encode(out.doc))) else d
  }

  ghost function After(codec: Codec, doc: Value, events: seq<Event>): (r: AtomicFile.Disk)
    ensures r.dirs != []
  {
    if events == [] then AtomicFile.Fresh(codec.encode(doc))
    else Step(codec, After(codec, doc, events[..|events| - 1]), events[|events| - 1])
  }

  /** Every text the disk may still show encodes a document satisfying `inv`. */
  ghost predicate Keeps(codec: Codec, inv: Value -> bool, d: AtomicFile.Disk, docs: set<string>) {
    && AtomicFile.Good(d, docs)
    && forall text :: text in docs ==> exists doc :: inv(doc) && codec.encode(doc) == text
  }

  lemma ShownIsKept(codec: Codec, inv: Value -> bool, d: AtomicFile.Disk, docs: set<string>)
    requires Keeps(codec, inv, d, docs)
    ensures Shown(d).Some? && exists doc :: inv(doc) && Shown(d) == Some(codec.encode(doc))
  {
    assert AtomicFile.TargetOk(d, d.dirs[|d.dirs| - 1], docs);
  }

  /** One replacement of the file, stopped anywhere. */
  lemma WriteStep(d: AtomicFile.Disk, docs: set<string>, x: Event, text: string)
    requires AtomicFile.Good(d, docs) && x.Serve?
    ensures var e := AtomicFile.Exec(d, WriteOps(x, text));
            && AtomicFile.Good(e, if Completed(x) then docs + {text} else docs)
            && Shown(d).Some?
            && Shown(e) == if Completed(x) then Some(text) else Shown(d)
  {
    var pieces := Pieces(text, x.sizes);
    var ops := AtomicFile.Program(pieces);
    PiecesJoin(text, x.sizes);
    assert ops[..|ops|] == ops;
    AtomicFile.WriteIsAtomic(d, docs, pieces, if x.cut <= |ops| then x.cut else |ops|);
  }

  lemma StepKeeps(codec: Codec, inv: Value -> bool, d: AtomicFile.Disk, docs: set<string>, x: Event)
    returns (more: set<string>)
    requires Inverse(codec) && Keeps(codec, inv, d, docs)
    requires x.Serve? ==> forall doc :: inv(doc) ==> inv(Next(doc, x.request))
    ensures Keeps(codec, inv, Step(codec, d, x), more)
  {
    more := docs;
    match x
    case PowerLoss(version, junk) =>
      if version < |d.dirs| {
        AtomicFile.PowerLossKeepsGood(d, docs, version, junk);
      }
    case Serve(request, _, _) =>
      ShownIsKept(codec, inv, d, docs);
      var doc :| inv(doc) && Shown(d) == Some(codec.encode(doc));
      assert codec.decode(codec.encode(doc)) == Some(doc);
      var next := Next(doc, request);
      assert inv(next);
      if Answer(doc, request).Written? {
        WriteStep(d, docs, x, codec.encode(next));
        if Completed(x) {
          more := docs + {codec.encode(next)};
        }
      }
  }

  lemma {:induction false} AllKept(codec: Codec, inv: Value -> bool, doc: Value, events: seq<Event>)
    returns (docs: set<string>)
    requires Inverse(codec) && inv(doc)
    requires forall x :: x in events && x.Serve? ==> forall d :: inv(d) ==> inv(Next(d, x.request))
    ensures Keeps(codec, inv, After(codec, doc, events), docs)
  {
    if events == [] {
      var d := AtomicFile.Fresh(codec.encode(doc));
      docs := {codec.encode(doc)};
      assert AtomicFile.TargetOk(d, d.dirs[0], docs);
    } else {
      var before, x := events[..|events| - 1], events[|events| - 1];
      docs := AllKept(codec, inv, doc, before);
      assert x in events;
      docs := StepKeeps(codec, inv, After(codec, doc, before), docs, x);
    }
  }

  /**
   Whatever every request preserves holds of the document in the file after any history of requests,
   crashes and power losses: the file is never partial, never undecodable.
   */
  lemma {:induction false} InvariantsSurvive(codec: Codec, inv: Value -> bool, doc: Value, events: seq<Event>)
    requires Inverse(codec) && inv(doc)
    requires forall x :: x in events && x.Serve? ==> forall d :: inv(d) ==> inv(Next(d, x.request))
    ensures exists now :: inv(now) && Shown(After(codec, doc, events)) == Some(codec.encode(now))
  {
    var docs := AllKept(codec, inv, doc, events);
    ShownIsKept(codec, inv, After(codec, doc, events), docs);
  }

  /** In particular the derived sinks and the absence of empty allowlist maps survive. */
  lemma {:induction false} DerivedSinksSurvive(codec: Codec, registry: Registry, doc: Value, events: seq<Event>)
    requires Inverse(codec) && AllDerived(doc, registry) && NoEmptyMap(doc)
    requires forall x :: x in events && x.Serve? ==> x.request.registry == registry
    ensures exists now ::
              AllDerived(now, registry) && NoEmptyMap(now) && Shown(After(codec, doc, events)) == Some(codec.encode(now))
  {
    var inv := (d: Value) => AllDerived(d, registry) && NoEmptyMap(d);
    forall x, d | x in events && x.Serve? && inv(d) ensures inv(Next(d, x.request)) {
      AllDerivedStays(d, x.request);
      NoEmptyMapStays(d, x.request);
    }
    InvariantsSurvive(codec, inv, doc, events);
  }

  /** The requests whose writes were completed. */
  function CompletedRequests(events: seq<Event>): seq<Request> {
    if events == [] then []
    else
      var x := events[|events| - 1];
      CompletedRequests(events[..|events| - 1]) + if Completed(x) then [x.request] else []
  }

  /**
   Without power loss the file holds exactly the result of serving, one after the other, the requests
   whose writes were completed, as if the interrupted ones had never been made.
   */
  lemma {:induction false} CrashesAreInvisible(codec: Codec, doc: Value, events: seq<Event>)
    requires Inverse(codec) && forall x :: x in events ==> x.Serve?
    ensures Shown(After(codec, doc, events)) == Some(codec.encode(Run(doc, CompletedRequests(events))))
  {
    if events != [] {
      var before, x := events[..|events| - 1], events[|events| - 1];
      assert x in events;
      CrashesAreInvisible(codec, doc, before);
      var docs := AllKept(codec, _ => true, doc, before);
      var d, run := After(codec, doc, before), CompletedRequests(before);
      var now := Run(doc, run);
      assert codec.decode(codec.encode(now)) == Some(now);
      RunOn(doc, run, x.request);
      if Answer(now, x.request).Written? {
        WriteStep(d, docs, x, codec.encode(Next(now, x.request)));
      }
    }
  }
}
