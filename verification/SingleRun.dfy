/** One call of `decrypt_file_chunked` on its own: what it ends in. */
module SingleRun {
  import opened ByteStrings
  import opened Stream
  import opened Blob
  import opened Files
  import opened Publish
  import opened Outcomes
  import opened Concurrency

  function Perform(c: Config, ls: seq<Label>, x: Local): Local {
    if ls == [] then x else Exec(c, ls[|ls| - 1], Perform(c, ls[..|ls| - 1], x))
  }

  function Begin(fs: Fs): Local {
    Local(Run.Start, fs)
  }

  lemma {:induction false} PerformMore(c: Config, ls: seq<Label>, l: Label, x: Local)
    ensures Perform(c, ls + [l], x) == Exec(c, l, Perform(c, ls, x))
  {
    assert (ls + [l])[..|ls|] == ls;
  }

  /** A call on its own is a system of one run. */
  lemma {:induction false} PerformIsExecute(c: Config, ls: seq<Label>, fs: Fs)
    ensures var y := Perform(c, ls, Begin(fs));
            Execute([c], seq(|ls|, i requires 0 <= i < |ls| => Move(0, ls[i])), Initial([c], fs))
            == System(y.fs, [y.run])
  {
    hide Exec;
    var moves := seq(|ls|, i requires 0 <= i < |ls| => Move(0, ls[i]));
    if ls != [] {
      var ls' := ls[..|ls| - 1];
      PerformIsExecute(c, ls', fs);
      assert moves[..|moves| - 1] == seq(|ls'|, i requires 0 <= i < |ls'| => Move(0, ls'[i]));
    }
  }

  /** The run, and what it keeps, at any time of a call on its own. */
  lemma {:induction false} PerformKeeps(c: Config, ls: seq<Label>, fs: Fs)
    requires Layout([c], fs)
    ensures var y := Perform(c, ls, Begin(fs));
            && Ready(c, y) && InitialKept(fs, y.fs)
            && (y.run.Source().Some? ==> y.run.Source().value in y.fs.nodes)
            && Inv([c], fs, System(y.fs, [y.run]))
  {
    hide Exec, RunOk, EntryOk;
    var y := Perform(c, ls, Begin(fs));
    PerformIsExecute(c, ls, fs);
    ExecuteKeepsInv([c], fs, seq(|ls|, i requires 0 <= i < |ls| => Move(0, ls[i])));
    RunsAreOk([c], fs, System(y.fs, [y.run]), 0);
    FileExists(c, y.run, y.fs);
    assert !IsTemp([c], [c][0].output);
    assert [c][0] == c;
    if y.run.Source().Some? {
      assert [y.run][0].Source().Some?;
    }
  }

  // ---------- the course of a call ----------

  /** The directory is the first one, but for an entry at the temp path. */
  ghost predicate ButForTemp(c: Config, fs0: Fs, fs: Fs) {
    if c.Temp().Ok? then fs.dir - {c.Temp().value} == fs0.dir else fs.dir == fs0.dir
  }

  /** What a call has made of the directory. */
  ghost predicate Directory(c: Config, fs0: Fs, y: Local) {
    match y.run
    case Start => y.fs == fs0
    case ReadingHeader(_, _) => y.fs.dir == fs0.dir
    case Armed(_, _) => y.fs.dir == fs0.dir
    case Published(_, fd, _) => c.Temp().Ok? && y.fs.dir == fs0.dir[c.output := fd]
    case _ => ButForTemp(c, fs0, y.fs)
  }

  lemma {:induction false} DirectoryKept(c: Config, fs0: Fs, y: Local, l: Label)
    requires Layout([c], fs0) && Ready(c, y) && Directory(c, fs0, y)
    ensures Directory(c, fs0, Exec(c, l, y))
  {
    SingleLayout(c, fs0);
    hide Layout, LoopOk, Unlocked, UnlockHeader, DecodeBlob, Session.OpenAt;
    if y.run.ReadingHeader? || y.run.Streaming? {
      hide RunOk;
    } else {
      hide LoopStep, HeaderStep;
    }
  }

  lemma {:induction false} StaysOnCourse(c: Config, ls: seq<Label>, fs0: Fs)
    requires Layout([c], fs0)
    ensures var y := Perform(c, ls, Begin(fs0));
            Directory(c, fs0, y) && (y.run.Start? || Outcome(c, fs0, y, Fault !in ls))
  {
    hide Exec, Ready, Layout, Inv, Outcome;
    if ls != [] {
      var ls', l := ls[..|ls| - 1], ls[|ls| - 1];
      var x := Perform(c, ls', Begin(fs0));
      StaysOnCourse(c, ls', fs0);
      PerformKeeps(c, ls', fs0);
      DirectoryKept(c, fs0, x, l);
      assert Fault in ls <==> Fault in ls' || l == Fault;
      if x.run.Start? {
        OutcomeBegins(c, x, l, Fault !in ls);
      } else {
        OutcomeKept(c, fs0, x, l, Fault !in ls');
      }
    }
  }

  /** Any call can be carried on to its end without further failures. */
  lemma {:induction false} CanFinish(c: Config, ls: seq<Label>, fs0: Fs) returns (ls': seq<Label>)
    requires Layout([c], fs0)
    ensures ls <= ls' && (Fault in ls' ==> Fault in ls)
    ensures Finished(Perform(c, ls', Begin(fs0)).run)
  {
    PerformKeeps(c, ls, fs0);
    ls' := FinishFrom(c, ls, fs0);
  }

  lemma {:induction false} FinishFrom(c: Config, ls: seq<Label>, fs0: Fs) returns (ls': seq<Label>)
    requires Layout([c], fs0) && Ready(c, Perform(c, ls, Begin(fs0)))
    ensures ls <= ls' && (Fault in ls' ==> Fault in ls)
    ensures Finished(Perform(c, ls', Begin(fs0)).run)
    decreases Rank(c, Perform(c, ls, Begin(fs0)))
  {
    hide Exec, Ready, Layout, Inv, Rank;
    if Finished(Perform(c, ls, Begin(fs0)).run) {
      return ls;
    }
    PerformMore(c, ls, Advance(0), Begin(fs0));
    PerformKeeps(c, ls + [Advance(0)], fs0);
    RankDecreases(c, 0, Perform(c, ls, Begin(fs0)));
    ls' := FinishFrom(c, ls + [Advance(0)], fs0);
  }

  // ---------- what a finished call has done ----------

  /** The output holds, durably, the decoding of the input; nothing else has changed. */
  ghost predicate Succeeded(c: Config, fs0: Fs, fs: Fs) {
    && c.input in fs0.dir && c.Decode(fs0.Data(fs0.dir[c.input])).Ok?
    && c.output in fs.dir && fs.dir[c.output] in fs.nodes
    && (var m := c.Decode(fs0.Data(fs0.dir[c.input])).value; fs.nodes[fs.dir[c.output]] == Inode(m, |m|))
    && (forall p :: p != c.output && c.Temp() != Ok(p) ==> Untouched(fs0, fs, p))
    && !HasTemp(c, fs)
  }

  /** Nothing has changed but, at worst, a temp file left behind. */
  ghost predicate LeftAlone(c: Config, fs0: Fs, fs: Fs) {
    forall p :: c.Temp() != Ok(p) ==> Untouched(fs0, fs, p)
  }

  /** The `t`-th thing that happened was a failure to remove the temp file. */
  ghost predicate RemovalFailedIn(c: Config, ls: seq<Label>, fs0: Fs, t: nat) {
    && t < |ls| && ls[t] == Fault
    && var x := Perform(c, ls[..t], Begin(fs0)); x.run.Cleaning? && HasTemp(c, x.fs)
  }

  /** A failed call leaves its temp file exactly if the removal of that file failed. */
  lemma {:induction false} LeftIffRemovalFailed(c: Config, ls: seq<Label>, fs0: Fs)
    requires Layout([c], fs0)
    ensures var y := Perform(c, ls, Begin(fs0));
            y.run.Failed? && HasTemp(c, y.fs) <==> exists t: nat :: RemovalFailedIn(c, ls, fs0, t)
  {
    hide Exec, Layout, HasTemp, Perform, Execute;
    var moves := seq(|ls|, i requires 0 <= i < |ls| => Move(0, ls[i]));
    PerformIsExecute(c, ls, fs0);
    TempLeftIff([c], fs0, moves, 0);
    forall t: nat
      ensures RemovalFailedIn(c, ls, fs0, t) <==> RemovalFailed([c], fs0, moves, 0, t)
    {
      if t < |ls| {
        assert moves[..t] == seq(t, i requires 0 <= i < t => Move(0, ls[..t][i]));
        PerformIsExecute(c, ls[..t], fs0);
      }
    }
  }

  /** A finished call. */
  lemma {:induction false} FinishedRun(c: Config, ls: seq<Label>, fs0: Fs)
    requires Layout([c], fs0)
    ensures var y := Perform(c, ls, Begin(fs0));
            && (y.run.Published? ==> Succeeded(c, fs0, y.fs) && Expected(c, fs0) == Ok(y.run.msg))
            && (y.run.Failed? ==>
                  && LeftAlone(c, fs0, y.fs)
                  && (HasTemp(c, y.fs) <==> exists t: nat :: RemovalFailedIn(c, ls, fs0, t))
                  && (!HasTemp(c, y.fs) ==> y.fs.dir == fs0.dir)
                  && (Expected(c, fs0) == Err(y.run.error) || (Fault in ls && y.run.error == Io))
                  && (Fault !in ls ==> !HasTemp(c, y.fs)))
  {
    var y := Perform(c, ls, Begin(fs0));
    PerformKeeps(c, ls, fs0);
    StaysOnCourse(c, ls, fs0);
    LeftIffRemovalFailed(c, ls, fs0);
    hide Perform, Inv, DecodeBlob;
    if y.run.Published? {
      PublishedFile(c, y.run, y.fs);
      PublishedAsExpected(c, fs0, y, Fault !in ls);
    }
  }
}
