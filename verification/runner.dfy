/** The running process: the files under `data/` and the effects it has
    issued, updated in place by `update` and `tick`. */
module Runner {
  import opened Mail
  import opened Ingest

  class Fetcher {
    /** The files on disk. */
    var store: Store
    /** Every write and downstream trigger issued so far, in order. */
    var log: seq<Event>
    /** The absolute path of `data/`, fixed for the life of the process. */
    const root: string

    ghost predicate Valid()
      reads this
    {
      WellLogged(State(store, log), root)
    }

    ghost function Snapshot(): State
      reads this
    {
      State(store, log)
    }

    /** A process starting over whatever `data/` already holds. */
    constructor (files: Store, root: string)
      ensures Valid()
      ensures store == files && log == [] && this.root == root
    {
      store := files;
      log := [];
      this.root := root;
    }

    /** `update`: look at the first attachment, skip it when it has no
        filename or `data/<filename>` exists, otherwise write it and send
        one trigger carrying `root`. `io` is what the write and the POST
        answer; `ok` is false when the call rejects. */
    method Update(mail: ParsedMail, io: Io) returns (ok: bool)
      requires Valid()
      modifies this
      ensures Valid()
      ensures Outcome(Snapshot(), ok) == Step(old(Snapshot()), root, mail, io)
    {
      ghost var s0 := Snapshot();
      StepKeepsWellLogged(s0, root, mail, io);
      ok := true;
      if |mail.attachments| == 0 {
        assert Candidate(mail).None?;
        return;
      }
      var attachment := mail.attachments[0];
      if attachment.filename.None? || attachment.filename.value == "" {
        assert Candidate(mail).None?;
        return;
      }
      var path := DataPath(attachment.filename.value);
      assert Candidate(mail) == Some(File(path, attachment.content));
      var present := path in store;
      if present {
        return;
      }
      if !io.writeOk {
        ok := false;
        return;
      }
      store := store[path := attachment.content];
      log := log + [Wrote(path)];
      log := log + [Triggered(root)];
      ok := io.postOk;
      assert log == s0.log + [Wrote(path), Triggered(root)];
    }

    /** `tick`, from the fetched mails on: `update` on each mail in turn,
        stopping at the first one that rejects. */
    method Tick(mails: seq<ParsedMail>, ios: seq<Io>) returns (ok: bool)
      requires Valid()
      requires |ios| == |mails|
      modifies this
      ensures Valid()
      ensures Outcome(Snapshot(), ok) == Run(old(Snapshot()), root, mails, ios)
    {
      ghost var s0 := Snapshot();
      ok := true;
      var i := 0;
      while i < |mails|
        invariant 0 <= i <= |mails|
        invariant Valid()
        invariant Outcome(Snapshot(), true) == Run(s0, root, mails[..i], ios[..i])
      {
        assert mails[..i + 1][..i] == mails[..i] && ios[..i + 1][..i] == ios[..i];
        ok := Update(mails[i], ios[i]);
        if !ok {
          RunStopsAtFailure(s0, root, mails, ios, i + 1);
          return;
        }
        i := i + 1;
      }
      assert mails[..i] == mails && ios[..i] == ios;
    }
  }
}
