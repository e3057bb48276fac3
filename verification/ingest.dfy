/** What one `update` call and one `tick` loop do to the attachment store and
    to the outside world, as functions over a snapshot of that state. */
module Ingest {
  import opened Mail

  type Path = string
  type Content = seq<Byte>

  /** The files on disk, by path; a path that is not a key does not exist. */
  type Store = map<Path, Content>

  /** The relative directory every attachment is saved under. */
  const DataDir: string := "data"

  /** The target path `data/<filename>`. */
  function DataPath(filename: string): Path
  {
    DataDir + "/" + filename
  }

  /** Distinct filenames never share a target path, so deduplication by path
      is deduplication by filename. */
  lemma DataPathInjective(a: string, b: string)
    ensures DataPath(a) == DataPath(b) <==> a == b
  {
    if DataPath(a) == DataPath(b) {
      assert a == DataPath(a)[|DataDir| + 1..];
      assert b == DataPath(b)[|DataDir| + 1..];
    }
  }

  /** A file to be saved: where, and what. */
  datatype File = File(path: Path, content: Content)

  /** The file `update` considers for a mail: the first attachment only, and
      only when its filename is present and not empty. */
  function Candidate(mail: ParsedMail): Option<File>
  {
    if |mail.attachments| == 0 then None
    else
      var a := mail.attachments[0];
      if a.filename.None? || a.filename.value == "" then None
      else Some(File(DataPath(a.filename.value), a.content))
  }

  /** Effects visible outside the store, in the order they are issued. */
  datatype Event =
    | Wrote(path: Path)        // the content was written to `path`
    | Triggered(root: string)  // the downstream POST was sent, carrying `root`

  /** The store together with every effect issued so far. */
  datatype State = State(store: Store, log: seq<Event>)

  /** How the environment answers the two I/O calls of one update: the file
      write, and the POST together with the decoding of its JSON reply. */
  datatype Io = Io(writeOk: bool, postOk: bool)

  /** The state after an update or a tick, and whether it completed (`true`)
      or its promise was rejected (`false`). */
  datatype Outcome = Outcome(after: State, ok: bool)

  function Lookup(store: Store, p: Path): Option<Content>
  {
    if p in store then Some(store[p]) else None
  }

  // ---------------------------------------------------------------------
  // The effect log

  /** The paths written, in order. */
  function Writes(log: seq<Event>): seq<Path>
  {
    if log == [] then []
    else
      var e := log[|log| - 1];
      Writes(log[..|log| - 1]) + (if e.Wrote? then [e.path] else [])
  }

  /** How many downstream triggers were sent. */
  function Triggers(log: seq<Event>): nat
  {
    if log == [] then 0
    else Triggers(log[..|log| - 1]) + (if log[|log| - 1].Triggered? then 1 else 0)
  }

  /** The log is a run of (write, trigger carrying `root`) pairs. */
  predicate Paired(log: seq<Event>, root: string)
  {
    log == [] ||
    (|log| >= 2 && log[|log| - 2].Wrote? && log[|log| - 1] == Triggered(root) &&
     Paired(log[..|log| - 2], root))
  }

  predicate Distinct(ps: seq<Path>)
  {
    forall i, j :: 0 <= i < j < |ps| ==> ps[i] != ps[j]
  }

  /** The lifetime invariant: writes and triggers come in pairs, no path is
      written twice, and every written path is still on disk. */
  predicate WellLogged(s: State, root: string)
  {
    Paired(s.log, root) && Distinct(Writes(s.log)) &&
    forall p :: p in Writes(s.log) ==> p in s.store
  }

  lemma {:induction false} WritesConcat(a: seq<Event>, b: seq<Event>)
    ensures Writes(a + b) == Writes(a) + Writes(b)
    decreases |b|
  {
    if b != [] {
      var n := |b| - 1;
      assert (a + b)[..|a + b| - 1] == a + b[..n];
      WritesConcat(a, b[..n]);
    } else {
      assert a + b == a;
    }
  }

  lemma {:induction false} TriggersConcat(a: seq<Event>, b: seq<Event>)
    ensures Triggers(a + b) == Triggers(a) + Triggers(b)
    decreases |b|
  {
    if b != [] {
      var n := |b| - 1;
      assert (a + b)[..|a + b| - 1] == a + b[..n];
      TriggersConcat(a, b[..n]);
    } else {
      assert a + b == a;
    }
  }

  lemma {:induction false} PairedConcat(a: seq<Event>, b: seq<Event>, root: string)
    requires Paired(a, root) && Paired(b, root)
    ensures Paired(a + b, root)
    decreases |b|
  {
    if b != [] {
      var n := |b| - 2;
      assert (a + b)[..|a + b| - 2] == a + b[..n];
      PairedConcat(a, b[..n], root);
    } else {
      assert a + b == a;
    }
  }

  lemma WritesOfPair(p: Path, root: string)
    ensures Writes([Wrote(p), Triggered(root)]) == [p]
    ensures Triggers([Wrote(p), Triggered(root)]) == 1
    ensures Paired([Wrote(p), Triggered(root)], root)
  {
    var e := [Wrote(p), Triggered(root)];
    assert e[..|e| - 1] == [Wrote(p)];
    assert [Wrote(p)][..0] == [];
    assert Writes([Wrote(p)]) == [p];
    assert Triggers([Wrote(p)]) == 0;
    assert e[..|e| - 2] == [];
  }

  /** Exactly one trigger per write. */
  lemma {:induction false} PairedCounts(log: seq<Event>, root: string)
    requires Paired(log, root)
    ensures Triggers(log) == |Writes(log)|
    decreases |log|
  {
    if log != [] {
      var n := |log| - 2;
      assert log == log[..n] + [log[n], log[n + 1]];
      PairedCounts(log[..n], root);
      WritesOfPair(log[n].path, root);
      WritesConcat(log[..n], [log[n], log[n + 1]]);
      TriggersConcat(log[..n], [log[n], log[n + 1]]);
    }
  }

  /** Every trigger comes right after a write and carries `root`, and every
      write is followed right away by a trigger. */
  lemma {:induction false} TriggerFollowsWrite(log: seq<Event>, root: string)
    requires Paired(log, root)
    ensures forall i :: 0 <= i < |log| && log[i].Triggered? ==>
              0 < i && log[i - 1].Wrote? && log[i].root == root
    ensures forall i :: 0 <= i < |log| && log[i].Wrote? ==>
              i + 1 < |log| && log[i + 1] == Triggered(root)
    decreases |log|
  {
    if log != [] {
      var n := |log| - 2;
      TriggerFollowsWrite(log[..n], root);
      forall i | 0 <= i < n
        ensures log[i] == log[..n][i]
      {
      }
    }
  }

  // ---------------------------------------------------------------------
  // One update

  /** One call of `update`: skip unless the first attachment has a filename,
      skip if `data/<filename>` exists, otherwise write it and then send the
      trigger. A failing write rejects before anything happens; a failing
      POST rejects after both effects. */
  function Step(s: State, root: string, mail: ParsedMail, io: Io): (r: Outcome)
    // an entry on disk is never overwritten or removed
    ensures forall p :: p in s.store ==> p in r.after.store && r.after.store[p] == s.store[p]
    // the log only grows
    ensures |s.log| <= |r.after.log| && r.after.log[..|s.log|] == s.log
    // either nothing happens, or the candidate is new and is written, then triggered
    ensures r.after.log[|s.log|..] == [] ==> r.after.store == s.store
    ensures r.after.log[|s.log|..] != [] ==>
              Candidate(mail).Some? && Candidate(mail).value.path !in s.store &&
              r.after.store == s.store[Candidate(mail).value.path := Candidate(mail).value.content] &&
              r.after.log[|s.log|..] == [Wrote(Candidate(mail).value.path), Triggered(root)] &&
              io.writeOk && r.ok == io.postOk
    // a completed update leaves the candidate on disk
    ensures r.ok && Candidate(mail).Some? ==> Candidate(mail).value.path in r.after.store
    // only I/O on a new candidate can reject
    ensures !r.ok ==> Candidate(mail).Some? && Candidate(mail).value.path !in s.store
  {
    match Candidate(mail)
    case None => Outcome(s, true)
    case Some(f) =>
      if f.path in s.store then Outcome(s, true)
      else if !io.writeOk then Outcome(s, false)
      else
        var log' := s.log + [Wrote(f.path), Triggered(root)];
        assert log'[..|s.log|] == s.log && log'[|s.log|..] == [Wrote(f.path), Triggered(root)];
        Outcome(State(s.store[f.path := f.content], log'), io.postOk)
  }

  /** A mail without attachments changes nothing and sends nothing. */
  lemma NoAttachmentIsNoOp(s: State, root: string, mail: ParsedMail, io: Io)
    requires |mail.attachments| == 0
    ensures Step(s, root, mail, io) == Outcome(s, true)
  {
  }

  /** Only the first attachment matters: dropping every later one leaves the
      update's outcome as it is. */
  lemma FirstAttachmentOnly(s: State, root: string, mail: ParsedMail, io: Io)
    requires |mail.attachments| > 0
    ensures Step(s, root, mail, io) == Step(s, root, ParsedMail(mail.attachments[..1]), io)
  {
  }

  /** A first attachment without a filename, or with an empty one, changes
      nothing and sends nothing. */
  lemma MissingFilenameIsNoOp(s: State, root: string, mail: ParsedMail, io: Io)
    requires |mail.attachments| > 0
    requires mail.attachments[0].filename.None? || mail.attachments[0].filename.value == ""
    ensures Step(s, root, mail, io) == Outcome(s, true)
  {
  }

  /** When `data/<filename>` already exists, it is not overwritten and
      nothing is sent. */
  lemma ExistingPathIsNoOp(s: State, root: string, mail: ParsedMail, io: Io)
    requires |mail.attachments| > 0
    requires mail.attachments[0].filename.Some? && mail.attachments[0].filename.value != ""
    requires DataPath(mail.attachments[0].filename.value) in s.store
    ensures Step(s, root, mail, io) == Outcome(s, true)
  {
  }

  /** When `data/<filename>` does not exist, a successful write stores
      exactly that path with the attachment's bytes, keeps every other entry,
      and is followed by one trigger carrying `root`. */
  lemma NewPathIsWrittenThenTriggered(s: State, root: string, mail: ParsedMail, io: Io)
    requires |mail.attachments| > 0
    requires mail.attachments[0].filename.Some? && mail.attachments[0].filename.value != ""
    requires DataPath(mail.attachments[0].filename.value) !in s.store
    requires io.writeOk
    ensures var p := DataPath(mail.attachments[0].filename.value);
            var r := Step(s, root, mail, io);
            r.after.store.Keys == s.store.Keys + {p} &&
            r.after.store[p] == mail.attachments[0].content &&
            (forall q :: q in s.store ==> r.after.store[q] == s.store[q]) &&
            r.after.log == s.log + [Wrote(p), Triggered(root)] &&
            r.ok == io.postOk
  {
  }

  /** When `data/<filename>` does not exist and the write fails, the update
      rejects with the store unchanged, and no trigger is sent. */
  lemma FailedWriteChangesNothing(s: State, root: string, mail: ParsedMail, io: Io)
    requires Candidate(mail).Some? && Candidate(mail).value.path !in s.store
    requires !io.writeOk
    ensures Step(s, root, mail, io) == Outcome(s, false)
  {
  }

  /** An update keeps the lifetime invariant. */
  lemma StepKeepsWellLogged(s: State, root: string, mail: ParsedMail, io: Io)
    requires WellLogged(s, root)
    ensures WellLogged(Step(s, root, mail, io).after, root)
  {
    var r := Step(s, root, mail, io);
    var d := r.after.log[|s.log|..];
    if d != [] {
      var p := Candidate(mail).value.path;
      assert r.after.log == s.log + d;
      WritesOfPair(p, root);
      WritesConcat(s.log, d);
      PairedConcat(s.log, d, root);
      assert p !in Writes(s.log);
    }
  }

  // ---------------------------------------------------------------------
  // One tick

  /** The `tick` loop: `update` on every fetched mail in order; a rejected
      update escapes the loop, so the remaining mails are not looked at. */
  function Run(s: State, root: string, mails: seq<ParsedMail>, ios: seq<Io>): (r: Outcome)
    requires |ios| == |mails|
    ensures forall p :: p in s.store ==> p in r.after.store && r.after.store[p] == s.store[p]
    ensures |s.log| <= |r.after.log| && r.after.log[..|s.log|] == s.log
    decreases |mails|
  {
    if mails == [] then Outcome(s, true)
    else
      var n := |mails| - 1;
      var prev := Run(s, root, mails[..n], ios[..n]);
      if !prev.ok then prev
      else
        var r := Step(prev.after, root, mails[n], ios[n]);
        assert r.after.log[..|s.log|] == r.after.log[..|prev.after.log|][..|s.log|];
        r
  }

  /** The paths of all candidates among `mails`. */
  function CandidatePaths(mails: seq<ParsedMail>): set<Path>
  {
    if mails == [] then {}
    else
      var m := mails[|mails| - 1];
      CandidatePaths(mails[..|mails| - 1]) + (if Candidate(m).Some? then {Candidate(m).value.path} else {})
  }

  /** The content of the first mail among `mails` whose candidate lands on `p`. */
  function FirstContent(mails: seq<ParsedMail>, p: Path): Option<Content>
  {
    if mails == [] then None
    else match Candidate(mails[0])
      case Some(f) => if f.path == p then Some(f.content) else FirstContent(mails[1..], p)
      case None => FirstContent(mails[1..], p)
  }

  lemma {:induction false} FirstContentSnoc(mails: seq<ParsedMail>, m: ParsedMail, p: Path)
    ensures FirstContent(mails + [m], p) ==
              if FirstContent(mails, p).Some? then FirstContent(mails, p) else FirstContent([m], p)
    decreases |mails|
  {
    if mails == [] {
      assert mails + [m] == [m];
    } else {
      assert (mails + [m])[0] == mails[0];
      assert (mails + [m])[1..] == mails[1..] + [m];
      FirstContentSnoc(mails[1..], m, p);
    }
  }

  /** A rejected update ends the tick: the mails after it change nothing. */
  lemma {:induction false} RunStopsAtFailure(s: State, root: string, mails: seq<ParsedMail>, ios: seq<Io>, k: nat)
    requires |ios| == |mails| && k <= |mails|
    requires !Run(s, root, mails[..k], ios[..k]).ok
    ensures Run(s, root, mails, ios) == Run(s, root, mails[..k], ios[..k])
    decreases |mails|
  {
    if k < |mails| {
      var n := |mails| - 1;
      assert mails[..n][..k] == mails[..k] && ios[..n][..k] == ios[..k];
      RunStopsAtFailure(s, root, mails[..n], ios[..n], k);
    } else {
      assert mails[..k] == mails && ios[..k] == ios;
    }
  }

  /** After a completed tick every candidate path of the tick is on disk. */
  lemma {:induction false} RunCoversCandidates(s: State, root: string, mails: seq<ParsedMail>, ios: seq<Io>)
    requires |ios| == |mails|
    requires Run(s, root, mails, ios).ok
    ensures CandidatePaths(mails) <= Run(s, root, mails, ios).after.store.Keys
    decreases |mails|
  {
    if mails != [] {
      var n := |mails| - 1;
      RunCoversCandidates(s, root, mails[..n], ios[..n]);
    }
  }

  /** A tick whose every candidate path is already on disk writes nothing and
      sends nothing. */
  lemma {:induction false} RunOverPresentIsNoOp(s: State, root: string, mails: seq<ParsedMail>, ios: seq<Io>)
    requires |ios| == |mails|
    requires CandidatePaths(mails) <= s.store.Keys
    ensures Run(s, root, mails, ios) == Outcome(s, true)
    decreases |mails|
  {
    if mails != [] {
      var n := |mails| - 1;
      RunOverPresentIsNoOp(s, root, mails[..n], ios[..n]);
    }
  }

  /** Re-delivery: after a completed tick, a later tick over mails whose
      candidate paths were all among the first tick's (for instance the same
      mails again) writes nothing, sends nothing and completes, whatever the
      I/O would have answered. */
  lemma {:induction false} RedeliveryIsNoOp(s: State, root: string, mails: seq<ParsedMail>, ios: seq<Io>,
                         again: seq<ParsedMail>, ios': seq<Io>)
    requires |ios| == |mails| && |ios'| == |again|
    requires Run(s, root, mails, ios).ok
    requires CandidatePaths(again) <= CandidatePaths(mails)
    ensures var t := Run(s, root, mails, ios).after;
            Run(t, root, again, ios') == Outcome(t, true)
  {
    RunCoversCandidates(s, root, mails, ios);
    RunOverPresentIsNoOp(Run(s, root, mails, ios).after, root, again, ios');
  }

  /** After a completed tick, each path holds what it held before if it
      existed; otherwise the content of the first mail of the tick that
      targets it; otherwise it does not exist. */
  lemma {:induction false} RunStoresFirstContent(s: State, root: string, mails: seq<ParsedMail>, ios: seq<Io>, p: Path)
    requires |ios| == |mails|
    requires Run(s, root, mails, ios).ok
    ensures Lookup(Run(s, root, mails, ios).after.store, p) ==
              if p in s.store then Some(s.store[p]) else FirstContent(mails, p)
    decreases |mails|
  {
    if mails != [] {
      var n := |mails| - 1;
      assert mails == mails[..n] + [mails[n]];
      RunStoresFirstContent(s, root, mails[..n], ios[..n], p);
      FirstContentSnoc(mails[..n], mails[n], p);
      assert [mails[n]][1..] == [];
    }
  }

  /** Appending one (write, trigger) pair for a path not yet written keeps
      the log paired and its writes distinct. */
  lemma AppendPair(d: seq<Event>, p: Path, root: string)
    requires Paired(d, root) && Distinct(Writes(d)) && p !in Writes(d)
    ensures Paired(d + [Wrote(p), Triggered(root)], root)
    ensures Writes(d + [Wrote(p), Triggered(root)]) == Writes(d) + [p]
    ensures Distinct(Writes(d) + [p])
  {
    WritesOfPair(p, root);
    PairedConcat(d, [Wrote(p), Triggered(root)], root);
    WritesConcat(d, [Wrote(p), Triggered(root)]);
  }

  /** One more new file written and triggered keeps the tick's log in step
      with the files that are new on disk. */
  lemma ExtendNewFiles(before: Store, mid: Store, d: seq<Event>, f: File, root: string)
    requires Paired(d, root) && Distinct(Writes(d))
    requires forall q :: q in Writes(d) <==> q in mid && q !in before
    requires before.Keys <= mid.Keys && f.path !in mid
    ensures var d' := d + [Wrote(f.path), Triggered(root)];
            Paired(d', root) && Distinct(Writes(d')) &&
            forall q :: q in Writes(d') <==> q in mid[f.path := f.content] && q !in before
  {
    AppendPair(d, f.path, root);
    var d' := d + [Wrote(f.path), Triggered(root)];
    forall q
      ensures q in Writes(d') <==> q in mid[f.path := f.content] && q !in before
    {
      assert q in Writes(d') <==> q in Writes(d) || q == f.path;
    }
  }

  /** What was appended to the log between `s` and `t` is (write, trigger)
      pairs, one for each file on disk in `t` but not in `s`, no path twice. */
  ghost predicate LogsNewFiles(s: State, t: State, root: string)
  {
    |s.log| <= |t.log| && t.log[..|s.log|] == s.log &&
    var d := t.log[|s.log|..];
    Paired(d, root) && Distinct(Writes(d)) &&
    forall q :: q in Writes(d) <==> q in t.store && q !in s.store
  }

  lemma StepLogsNewFiles(s: State, mid: State, root: string, mail: ParsedMail, io: Io)
    requires s.store.Keys <= mid.store.Keys
    requires LogsNewFiles(s, mid, root)
    ensures LogsNewFiles(s, Step(mid, root, mail, io).after, root)
  {
    var t := Step(mid, root, mail, io).after;
    var dp := mid.log[|s.log|..];
    var e := t.log[|mid.log|..];
    assert t.log == s.log + dp + e by {
      assert t.log == mid.log + e;
      assert mid.log == s.log + dp;
    }
    assert t.log[..|s.log|] == s.log;
    assert t.log[|s.log|..] == dp + e;
    if e != [] {
      var f := Candidate(mail).value;
      assert e == [Wrote(f.path), Triggered(root)];
      assert t.store == mid.store[f.path := f.content];
      assert f.path !in mid.store;
      ExtendNewFiles(s.store, mid.store, dp, f, root);
      assert t.log[|s.log|..] == dp + [Wrote(f.path), Triggered(root)];
    }
  }

  /** What one tick appends to the log: (write, trigger) pairs, one per file
      that is new on disk afterwards, no path twice. */
  lemma {:induction false} RunLogMatchesNewFiles(s: State, root: string, mails: seq<ParsedMail>, ios: seq<Io>)
    requires |ios| == |mails|
    ensures LogsNewFiles(s, Run(s, root, mails, ios).after, root)
    decreases |mails|
  {
    if mails == [] {
      assert s.log[|s.log|..] == [] && s.log[..|s.log|] == s.log;
    } else {
      var n := |mails| - 1;
      var prev := Run(s, root, mails[..n], ios[..n]);
      RunLogMatchesNewFiles(s, root, mails[..n], ios[..n]);
      if prev.ok {
        StepLogsNewFiles(s, prev.after, root, mails[n], ios[n]);
      }
    }
  }

  /** A tick sends exactly as many triggers as it writes files. */
  lemma RunTriggersEqualWrites(s: State, root: string, mails: seq<ParsedMail>, ios: seq<Io>)
    requires |ios| == |mails|
    ensures var t := Run(s, root, mails, ios).after;
            |s.log| <= |t.log| && Triggers(t.log[|s.log|..]) == |Writes(t.log[|s.log|..])|
  {
    RunLogMatchesNewFiles(s, root, mails, ios);
    PairedCounts(Run(s, root, mails, ios).after.log[|s.log|..], root);
  }
}
