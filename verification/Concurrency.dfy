/** Any number of file decryptions at once, in any interleaving, with failures and crashes. */
module Concurrency {
  import opened ByteStrings
  import opened Files
  import opened Publish
  import opened Outcomes
  import opened Gcm
  import opened Stream
  import opened Segments
  import opened Blob
  import opened History

  datatype System = System(fs: Fs, runs: seq<Run>)

  /** Something happens to run `i`. */
  datatype Move = Move(i: nat, l: Label)

  function Initial(cfgs: seq<Config>, fs: Fs): System {
    System(fs, seq(|cfgs|, _ => Run.Start))
  }

  function Step(cfgs: seq<Config>, m: Move, s: System): System {
    if m.i < |cfgs| && m.i < |s.runs| then
      var y := Exec(cfgs[m.i], m.l, Local(s.runs[m.i], s.fs));
      System(y.fs, s.runs[m.i := y.run])
    else s
  }

  function Execute(cfgs: seq<Config>, moves: seq<Move>, s: System): System {
    if moves == [] then s
    else Step(cfgs, moves[|moves| - 1], Execute(cfgs, moves[..|moves| - 1], s))
  }

  ghost predicate IsTemp(cfgs: seq<Config>, p: Path) {
    exists i :: 0 <= i < |cfgs| && cfgs[i].Temp() == Ok(p)
  }

  /** The temp paths are new, differ from one another, and are nobody's input or output. */
  ghost predicate Layout(cfgs: seq<Config>, fs: Fs) {
    && fs.WellFormed()
    && (forall i :: 0 <= i < |cfgs| && cfgs[i].Temp().Ok? ==> cfgs[i].Temp().value !in fs.dir)
    && (forall i :: 0 <= i < |cfgs| ==> !IsTemp(cfgs, cfgs[i].input) && !IsTemp(cfgs, cfgs[i].output))
    && (forall i, j :: 0 <= i < |cfgs| && 0 <= j < |cfgs| && i != j && cfgs[i].Temp().Ok?
          ==> cfgs[i].Temp() != cfgs[j].Temp())
  }

  /** A layout of one call: its temp path is new and neither its input nor its output. */
  lemma {:induction false} SingleLayout(c: Config, fs: Fs)
    ensures Layout([c], fs) <==>
              fs.WellFormed() && (c.Temp().Ok? ==> c.Temp().value !in fs.dir)
              && c.Temp() != Ok(c.input) && c.Temp() != Ok(c.output)
  {
    assert [c][0] == c;
    assert forall p :: IsTemp([c], p) <==> c.Temp() == Ok(p);
  }

  /** A name of the shape of a temp file. */
  ghost predicate PartShaped(p: Path) {
    p.name.Some? && exists stem: string, x: Suffix :: p.name.value == TempName(stem, x)
  }

  /** Callers get a layout from names: no path in sight has the shape of a temp file, and no two calls
      with the same output draw the same suffix. */
  lemma {:induction false} LayoutFromNames(cfgs: seq<Config>, fs: Fs)
    requires fs.WellFormed()
    requires forall p :: p in fs.dir ==> !PartShaped(p)
    requires forall i :: 0 <= i < |cfgs| ==> !PartShaped(cfgs[i].input) && !PartShaped(cfgs[i].output)
    requires forall i, j :: 0 <= i < j < |cfgs| ==>
               cfgs[i].output != cfgs[j].output || cfgs[i].suffix != cfgs[j].suffix
    ensures Layout(cfgs, fs)
  {
    forall i | 0 <= i < |cfgs| && cfgs[i].Temp().Ok?
      ensures PartShaped(cfgs[i].Temp().value)
    {
      assert cfgs[i].Temp().value.name.value == TempName(cfgs[i].output.name.value, cfgs[i].suffix.value);
    }
    forall i, j | 0 <= i < |cfgs| && 0 <= j < |cfgs| && i != j && cfgs[i].Temp().Ok?
      ensures cfgs[i].Temp() != cfgs[j].Temp()
    {
      if cfgs[i].Temp() == cfgs[j].Temp() {
        SiblingTempInjective(cfgs[i].output, cfgs[i].suffix, cfgs[j].output, cfgs[j].suffix);
        assert false;
      }
    }
  }

  // ---------- the invariant ----------

  /** A file that no run will touch: one that was there at first, or one that is published. */
  ghost predicate Frozen(fs0: Fs, runs: seq<Run>, n: nat) {
    n in fs0.nodes || exists j :: 0 <= j < |runs| && runs[j].Published? && runs[j].fd == n
  }

  /** Run `j` has published at `p`. */
  ghost predicate Fills(cfgs: seq<Config>, s: System, j: nat, p: Path) {
    && j < |cfgs| == |s.runs| && s.runs[j].Published? && cfgs[j].output == p
    && p in s.fs.dir && s.fs.dir[p] == s.runs[j].fd
  }

  ghost predicate EntryOk(cfgs: seq<Config>, fs0: Fs, s: System, p: Path) {
    || IsTemp(cfgs, p)
    || (p in fs0.dir && p in s.fs.dir && s.fs.dir[p] == fs0.dir[p])
    || (p !in fs0.dir && p !in s.fs.dir)
    || exists j: nat :: Fills(cfgs, s, j, p)
  }

  ghost predicate FilesApart(fs0: Fs, runs: seq<Run>) {
    && (forall i :: 0 <= i < |runs| && runs[i].File().Some? ==> runs[i].File().value !in fs0.nodes)
    && (forall i, j :: 0 <= i < |runs| && 0 <= j < |runs| && i != j && runs[i].File().Some?
          ==> runs[i].File() != runs[j].File())
  }

  ghost predicate SourcesFrozen(fs0: Fs, runs: seq<Run>) {
    forall i :: 0 <= i < |runs| && runs[i].Source().Some?
      ==> Frozen(fs0, runs, runs[i].Source().value) && SourceIsNotFile(runs[i])
  }

  ghost predicate InitialKept(fs0: Fs, fs: Fs) {
    forall n :: n in fs0.nodes ==> n in fs.nodes && fs.nodes[n] == fs0.nodes[n]
  }

  ghost predicate Inv(cfgs: seq<Config>, fs0: Fs, s: System) {
    && |s.runs| == |cfgs| && s.fs.WellFormed()
    && (forall i :: 0 <= i < |cfgs| ==> RunOk(cfgs[i], s.runs[i], s.fs))
    && InitialKept(fs0, s.fs) && FilesApart(fs0, s.runs) && SourcesFrozen(fs0, s.runs)
    && (forall p :: EntryOk(cfgs, fs0, s, p))
  }

  /** A sound action of run `i` took `s` to `s'`. */
  ghost predicate Stepped(cfgs: seq<Config>, s: System, s': System, i: nat) {
    && i < |cfgs| == |s.runs| == |s'.runs|
    && s'.runs == s.runs[i := s'.runs[i]]
    && Sound(cfgs[i], Local(s.runs[i], s.fs), Local(s'.runs[i], s'.fs))
  }

  /** What a run rests on: its input, its file and the entry at its temp path. */
  lemma {:induction false} RunOkStable(c: Config, run: Run, fs: Fs, fs': Fs)
    requires RunOk(c, run, fs)
    requires run.Source().Some?
             ==> run.Source().value in fs'.nodes && fs'.nodes[run.Source().value] == fs.nodes[run.Source().value]
    requires run.File().Some?
             ==> run.File().value in fs'.nodes && fs'.nodes[run.File().value] == fs.nodes[run.File().value]
    requires c.Temp().Ok? ==>
               var t := c.Temp().value; (t in fs.dir <==> t in fs'.dir) && (t in fs.dir ==> fs'.dir[t] == fs.dir[t])
    ensures RunOk(c, run, fs')
  {
    hide LoopOk, Unlocked;
  }

  /** A frozen file is not written by the acting run, and stays frozen. */
  lemma {:induction false} FrozenStays(cfgs: seq<Config>, fs0: Fs, s: System, s': System, i: nat, n: nat)
    requires Inv(cfgs, fs0, s) && Stepped(cfgs, s, s', i) && Frozen(fs0, s.runs, n)
    ensures n in s.fs.nodes && n in s'.fs.nodes && s'.fs.nodes[n] == s.fs.nodes[n] && Frozen(fs0, s'.runs, n)
  {
    hide RunOk;
    if n !in fs0.nodes {
      var j :| 0 <= j < |s.runs| && s.runs[j].Published? && s.runs[j].fd == n;
      assert s'.runs[j] == s.runs[j] && s.runs[j].File() == Some(n);
      assert n in s.fs.nodes by { PublishedFile(cfgs[j], s.runs[j], s.fs); }
    }
  }

  lemma {:induction false} PublishedFile(c: Config, run: Run, fs: Fs)
    requires run.Published? && RunOk(c, run, fs)
    ensures run.fd in fs.nodes && fs.nodes[run.fd] == Inode(run.msg, |run.msg|)
    ensures run.src in fs.nodes && c.Decode(fs.Data(run.src)) == Ok(run.msg)
  {
  }

  lemma {:induction false} FileExists(c: Config, run: Run, fs: Fs)
    requires RunOk(c, run, fs)
    ensures run.File().Some? ==> run.File().value in fs.nodes
    ensures run.Source().Some? ==> run.Source().value in fs.nodes
  {
  }

  lemma {:induction false} OthersOk(cfgs: seq<Config>, fs0: Fs, s: System, s': System, i: nat, j: nat)
    requires Layout(cfgs, fs0) && Inv(cfgs, fs0, s) && Stepped(cfgs, s, s', i)
    requires j < |cfgs| && j != i
    ensures RunOk(cfgs[j], s'.runs[j], s'.fs)
  {
    hide RunOk;
    FileExists(cfgs[j], s.runs[j], s.fs);
    if s.runs[j].Source().Some? {
      FrozenStays(cfgs, fs0, s, s', i, s.runs[j].Source().value);
    }
    if cfgs[j].Temp().Ok? {
      assert IsTemp(cfgs, cfgs[j].Temp().value);
    }
    RunOkStable(cfgs[j], s.runs[j], s.fs, s'.fs);
  }

  lemma {:induction false} FilesStayApart(cfgs: seq<Config>, fs0: Fs, s: System, s': System, i: nat)
    requires Inv(cfgs, fs0, s) && Stepped(cfgs, s, s', i)
    ensures FilesApart(fs0, s'.runs) && InitialKept(fs0, s'.fs)
  {
    hide RunOk;
    forall j | 0 <= j < |cfgs|
      ensures s.runs[j].File().Some? ==> s.runs[j].File().value in s.fs.nodes
    {
      FileExists(cfgs[j], s.runs[j], s.fs);
    }
  }

  lemma {:induction false} SourcesStayFrozen(cfgs: seq<Config>, fs0: Fs, s: System, s': System, i: nat)
    requires Layout(cfgs, fs0) && Inv(cfgs, fs0, s) && Stepped(cfgs, s, s', i)
    ensures SourcesFrozen(fs0, s'.runs)
  {
    hide RunOk;
    forall j | 0 <= j < |cfgs| && s'.runs[j].Source().Some?
      ensures Frozen(fs0, s'.runs, s'.runs[j].Source().value) && SourceIsNotFile(s'.runs[j])
    {
      var n := s'.runs[j].Source().value;
      FileExists(cfgs[j], s.runs[j], s.fs);
      if s'.runs[j].Source() != s.runs[j].Source() {
        assert EntryOk(cfgs, fs0, s, cfgs[j].input);
      }
      FrozenStays(cfgs, fs0, s, s', i, n);
    }
  }

  lemma {:induction false} EntriesStayOk(cfgs: seq<Config>, fs0: Fs, s: System, s': System, i: nat, p: Path)
    requires Layout(cfgs, fs0) && Inv(cfgs, fs0, s) && Stepped(cfgs, s, s', i)
    ensures EntryOk(cfgs, fs0, s', p)
  {
    hide RunOk;
    assert EntryOk(cfgs, fs0, s, p);
    if !IsTemp(cfgs, p) {
      if p == cfgs[i].output && s'.runs[i].Published? && !s.runs[i].Published? {
        assert Fills(cfgs, s', i, p);
      } else if j: nat :| Fills(cfgs, s, j, p) {
        assert Fills(cfgs, s', j, p);
      }
    }
  }

  lemma {:induction false} StepKeepsInv(cfgs: seq<Config>, fs0: Fs, s: System, m: Move)
    requires Layout(cfgs, fs0) && Inv(cfgs, fs0, s)
    ensures Inv(cfgs, fs0, Step(cfgs, m, s))
  {
    var s', i := Step(cfgs, m, s), m.i;
    if i < |cfgs| {
      hide RunOk, Exec, Layout, EntryOk, FilesApart, SourcesFrozen, InitialKept;
      MoveSound(cfgs, fs0, s, m);
      forall j | 0 <= j < |cfgs|
        ensures RunOk(cfgs[j], s'.runs[j], s'.fs)
      {
        if j != i {
          OthersOk(cfgs, fs0, s, s', i, j);
        }
      }
      FilesStayApart(cfgs, fs0, s, s', i);
      SourcesStayFrozen(cfgs, fs0, s, s', i);
      forall p
        ensures EntryOk(cfgs, fs0, s', p)
      {
        EntriesStayOk(cfgs, fs0, s, s', i, p);
      }
    }
  }

  lemma {:induction false} MoveSound(cfgs: seq<Config>, fs0: Fs, s: System, m: Move)
    requires Layout(cfgs, fs0) && Inv(cfgs, fs0, s) && m.i < |cfgs|
    ensures Stepped(cfgs, s, Step(cfgs, m, s), m.i)
  {
    hide RunOk, Exec, EntryOk;
    var c := cfgs[m.i];
    assert c.Temp() != Ok(c.output) by {
      assert !IsTemp(cfgs, c.output);
    }
    ExecSound(c, m.l, Local(s.runs[m.i], s.fs));
  }

  lemma {:induction false} InitiallyInv(cfgs: seq<Config>, fs0: Fs)
    requires Layout(cfgs, fs0)
    ensures Inv(cfgs, fs0, Initial(cfgs, fs0))
  {
  }

  lemma {:induction false} ExecuteKeepsInv(cfgs: seq<Config>, fs0: Fs, moves: seq<Move>)
    requires Layout(cfgs, fs0)
    ensures Inv(cfgs, fs0, Execute(cfgs, moves, Initial(cfgs, fs0)))
  {
    hide Inv, Step;
    if moves == [] {
      InitiallyInv(cfgs, fs0);
    } else {
      var before := moves[..|moves| - 1];
      ExecuteKeepsInv(cfgs, fs0, before);
      StepKeepsInv(cfgs, fs0, Execute(cfgs, before, Initial(cfgs, fs0)), moves[|moves| - 1]);
    }
  }

  // ---------- what a run works on, and what it comes to ----------

  lemma {:induction false} PublishedStays(cfgs: seq<Config>, fs0: Fs, moves: seq<Move>, t: nat, j: nat)
    requires Layout(cfgs, fs0) && t <= |moves| && j < |cfgs|
    ensures var s, s' := Execute(cfgs, moves[..t], Initial(cfgs, fs0)), Execute(cfgs, moves, Initial(cfgs, fs0));
            |s.runs| == |s'.runs| == |cfgs| && (s.runs[j].Published? ==> s'.runs[j] == s.runs[j])
  {
    ExecuteKeepsInv(cfgs, fs0, moves);
    hide RunOk, EntryOk, Exec;
    if t == |moves| {
      assert moves[..t] == moves;
    } else {
      var before := moves[..|moves| - 1];
      assert before[..t] == moves[..t];
      PublishedStays(cfgs, fs0, before, t, j);
      ExecuteKeepsInv(cfgs, fs0, before);
      var s, m := Execute(cfgs, before, Initial(cfgs, fs0)), moves[|moves| - 1];
      if m.i == j {
        MoveSound(cfgs, fs0, s, m);
      }
    }
  }

  /** The `t`-th move is the one in which run `i` opens its input. */
  ghost predicate OpensAt(cfgs: seq<Config>, fs0: Fs, moves: seq<Move>, i: nat, t: nat) {
    && t < |moves| && moves[t].i == i
    && i < |Execute(cfgs, moves[..t], Initial(cfgs, fs0)).runs|
    && Execute(cfgs, moves[..t], Initial(cfgs, fs0)).runs[i].Start?
  }

  /** Ever since, the run has worked on what it found then. */
  ghost predicate WorksFrom(cfgs: seq<Config>, fs0: Fs, moves: seq<Move>, i: nat, t: nat)
    requires i < |cfgs| && i < |Execute(cfgs, moves, Initial(cfgs, fs0)).runs|
  {
    var s := Execute(cfgs, moves, Initial(cfgs, fs0));
    && OpensAt(cfgs, fs0, moves, i, t)
    && Outcome(cfgs[i], Execute(cfgs, moves[..t], Initial(cfgs, fs0)).fs, Local(s.runs[i], s.fs),
               Move(i, Fault) !in moves)
  }

  lemma {:induction false} OutcomeOfOthers(cfgs: seq<Config>, fs0: Fs, s: System, s': System, j: nat, i: nat,
          at: Fs, clean: bool, clean': bool)
    requires Inv(cfgs, fs0, s) && Stepped(cfgs, s, s', j) && i < |cfgs| && i != j && (clean' ==> clean)
    requires Outcome(cfgs[i], at, Local(s.runs[i], s.fs), clean)
    ensures Outcome(cfgs[i], at, Local(s'.runs[i], s'.fs), clean')
  {
    hide RunOk, Sound, Expected;
    if s.runs[i].Source().Some? {
      FrozenStays(cfgs, fs0, s, s', j, s.runs[i].Source().value);
    }
  }

  lemma {:induction false} WorksFromOpening(cfgs: seq<Config>, fs0: Fs, moves: seq<Move>, i: nat)
    requires Layout(cfgs, fs0) && i < |cfgs|
    ensures |Execute(cfgs, moves, Initial(cfgs, fs0)).runs| == |cfgs|
    ensures || Execute(cfgs, moves, Initial(cfgs, fs0)).runs[i].Start?
            || exists t: nat :: WorksFrom(cfgs, fs0, moves, i, t)
  {
    hide RunOk, EntryOk, Exec, Outcome, Layout, Sound, FilesApart, SourcesFrozen, InitialKept;
    ExecuteKeepsInv(cfgs, fs0, moves);
    if moves != [] {
      var n := |moves| - 1;
      var before, m := moves[..n], moves[n];
      var s, s' := Execute(cfgs, before, Initial(cfgs, fs0)), Execute(cfgs, moves, Initial(cfgs, fs0));
      WorksFromOpening(cfgs, fs0, before, i);
      ExecuteKeepsInv(cfgs, fs0, before);
      assert s' == Step(cfgs, m, s);
      if m.i < |cfgs| {
        MoveSound(cfgs, fs0, s, m);
      }
      if m.i == i && s.runs[i].Start? {
        OutcomeBegins(cfgs[i], Local(s.runs[i], s.fs), m.l, Move(i, Fault) !in moves);
        assert WorksFrom(cfgs, fs0, moves, i, n);
      } else if t: nat :| WorksFrom(cfgs, fs0, before, i, t) {
        var at := Execute(cfgs, moves[..t], Initial(cfgs, fs0)).fs;
        assert before[..t] == moves[..t];
        if m.i == i {
          ReadyToMove(cfgs, fs0, s, i);
          OutcomeKept(cfgs[i], at, Local(s.runs[i], s.fs), m.l, Move(i, Fault) !in before);
          assert Move(i, Fault) in moves <==> Move(i, Fault) in before || m.l == Fault;
        } else if m.i < |cfgs| {
          OutcomeOfOthers(cfgs, fs0, s, s', m.i, i, at, Move(i, Fault) !in before, Move(i, Fault) !in moves);
        } else {
          assert Move(i, Fault) in moves <==> Move(i, Fault) in before;
        }
        assert WorksFrom(cfgs, fs0, moves, i, t);
      }
    }
  }

  lemma {:induction false} ReadyToMove(cfgs: seq<Config>, fs0: Fs, s: System, i: nat)
    requires Layout(cfgs, fs0) && Inv(cfgs, fs0, s) && i < |cfgs|
    ensures Ready(cfgs[i], Local(s.runs[i], s.fs))
  {
    hide RunOk, EntryOk;
    assert !IsTemp(cfgs, cfgs[i].output);
    if s.runs[i].Source().Some? {
      assert SourceIsNotFile(s.runs[i]);
    }
  }

  /** A call takes effect as if the others stood still: its result is the one expected of the file
      system as it was when the call opened its input. */
  lemma {:induction false} ActsAsAtOpening(cfgs: seq<Config>, fs0: Fs, moves: seq<Move>, i: nat)
    requires Layout(cfgs, fs0) && i < |cfgs|
    ensures var s := Execute(cfgs, moves, Initial(cfgs, fs0));
            && |s.runs| == |cfgs|
            && (Finished(s.runs[i]) ==>
                  exists t: nat :: OpensAt(cfgs, fs0, moves, i, t) &&
                    var want := Expected(cfgs[i], Execute(cfgs, moves[..t], Initial(cfgs, fs0)).fs);
                    && (s.runs[i].Published? ==> want == Ok(s.runs[i].msg))
                    && (s.runs[i].Failed? ==>
                          want == Err(s.runs[i].error) || (Move(i, Fault) in moves && s.runs[i].error == Io)))
  {
    hide RunOk, EntryOk, Execute, Expected;
    var s := Execute(cfgs, moves, Initial(cfgs, fs0));
    WorksFromOpening(cfgs, fs0, moves, i);
    ExecuteKeepsInv(cfgs, fs0, moves);
    if t: nat :| WorksFrom(cfgs, fs0, moves, i, t) {
      if s.runs[i].Published? {
        PublishedAsExpected(cfgs[i], Execute(cfgs, moves[..t], Initial(cfgs, fs0)).fs, Local(s.runs[i], s.fs),
                            Move(i, Fault) !in moves);
      }
    }
  }

  /** What run `j` reads is the file that was at its input at first, or the plaintext that another run
      has published there; either is as it was when it was opened. */
  ghost predicate ReadsInput(cfgs: seq<Config>, fs0: Fs, s: System, j: nat)
    requires j < |cfgs| == |s.runs| && s.runs[j].Source().Some?
  {
    var input, src := cfgs[j].input, s.runs[j].Source().value;
    || (input in fs0.dir && src == fs0.dir[input] && s.fs.Data(src) == fs0.Content(input))
    || exists k :: 0 <= k < |cfgs| && s.runs[k].Published? && cfgs[k].output == input
         && src == s.runs[k].fd && s.fs.Data(src) == s.runs[k].msg
  }

  lemma {:induction false} RunsReadTheirInput(cfgs: seq<Config>, fs0: Fs, moves: seq<Move>, j: nat)
    requires Layout(cfgs, fs0) && j < |cfgs|
    ensures var s := Execute(cfgs, moves, Initial(cfgs, fs0));
            |s.runs| == |cfgs| && (s.runs[j].Source().Some? ==> ReadsInput(cfgs, fs0, s, j))
  {
    hide RunOk, Execute, Expected, FilesApart, SourcesFrozen;
    var s := Execute(cfgs, moves, Initial(cfgs, fs0));
    WorksFromOpening(cfgs, fs0, moves, j);
    if s.runs[j].Source().Some? {
      var t: nat :| WorksFrom(cfgs, fs0, moves, j, t);
      var at := Execute(cfgs, moves[..t], Initial(cfgs, fs0));
      ExecuteKeepsInv(cfgs, fs0, moves[..t]);
      assert EntryOk(cfgs, fs0, at, cfgs[j].input);
      if k: nat :| Fills(cfgs, at, k, cfgs[j].input) {
        PublishedFile(cfgs[k], at.runs[k], at.fs);
        PublishedStays(cfgs, fs0, moves, t, k);
      }
    }
  }

  // ---------- runs come to an end ----------

  /** `moves'` carries on `moves` by successful actions of run `i` alone. */
  ghost predicate CarriedOnBy(i: nat, moves: seq<Move>, moves': seq<Move>) {
    moves <= moves' && forall t :: |moves| <= t < |moves'| ==> moves'[t].i == i && moves'[t].l != Fault
  }

  /** Wherever the others stand, a run can be carried on to its end without them. */
  lemma {:induction false} CanFinishAmongOthers(cfgs: seq<Config>, fs0: Fs, moves: seq<Move>, i: nat)
    returns (moves': seq<Move>)
    requires Layout(cfgs, fs0) && i < |cfgs|
    ensures CarriedOnBy(i, moves, moves')
    ensures var s, s' := Execute(cfgs, moves, Initial(cfgs, fs0)), Execute(cfgs, moves', Initial(cfgs, fs0));
            && |s.runs| == |s'.runs| == |cfgs| && Finished(s'.runs[i])
            && forall j :: 0 <= j < |cfgs| && j != i ==> s'.runs[j] == s.runs[j]
  {
    hide Inv, Layout;
    HaveRuns(cfgs, fs0, moves);
    ExecuteKeepsInv(cfgs, fs0, moves);
    ReadyToMove(cfgs, fs0, Execute(cfgs, moves, Initial(cfgs, fs0)), i);
    moves' := FinishAmongOthers(cfgs, fs0, moves, i);
  }

  lemma {:induction false} FinishAmongOthers(cfgs: seq<Config>, fs0: Fs, moves: seq<Move>, i: nat)
    returns (moves': seq<Move>)
    requires Layout(cfgs, fs0) && i < |cfgs|
    requires var s := Execute(cfgs, moves, Initial(cfgs, fs0));
             |s.runs| == |cfgs| && Ready(cfgs[i], Local(s.runs[i], s.fs))
    ensures CarriedOnBy(i, moves, moves')
    ensures var s, s' := Execute(cfgs, moves, Initial(cfgs, fs0)), Execute(cfgs, moves', Initial(cfgs, fs0));
            && |s.runs| == |s'.runs| == |cfgs| && Finished(s'.runs[i])
            && forall j :: 0 <= j < |cfgs| && j != i ==> s'.runs[j] == s.runs[j]
    decreases var s := Execute(cfgs, moves, Initial(cfgs, fs0)); Rank(cfgs[i], Local(s.runs[i], s.fs))
  {
    hide Exec, Ready, Layout, Inv, Rank;
    var s := Execute(cfgs, moves, Initial(cfgs, fs0));
    if Finished(s.runs[i]) {
      return moves;
    }
    var more := moves + [Move(i, Advance(0))];
    assert more[..|moves|] == moves;
    var s' := Execute(cfgs, more, Initial(cfgs, fs0));
    assert s' == Step(cfgs, Move(i, Advance(0)), s);
    ExecuteKeepsInv(cfgs, fs0, more);
    ReadyToMove(cfgs, fs0, s', i);
    RankDecreases(cfgs[i], 0, Local(s.runs[i], s.fs));
    moves' := FinishAmongOthers(cfgs, fs0, more, i);
  }

  /** All of the first `n` runs can be carried on to their ends, from any state. */
  lemma {:induction false} AllCanFinish(cfgs: seq<Config>, fs0: Fs, moves: seq<Move>, n: nat)
    returns (moves': seq<Move>)
    requires Layout(cfgs, fs0) && n <= |cfgs|
    ensures moves <= moves' && forall t :: |moves| <= t < |moves'| ==> moves'[t].l != Fault
    ensures var s' := Execute(cfgs, moves', Initial(cfgs, fs0));
            |s'.runs| == |cfgs| && forall j :: 0 <= j < n ==> Finished(s'.runs[j])
  {
    hide Execute, Layout, Inv, Finished;
    if n == 0 {
      HaveRuns(cfgs, fs0, moves);
      return moves;
    }
    var before := AllCanFinish(cfgs, fs0, moves, n - 1);
    moves' := CanFinishAmongOthers(cfgs, fs0, before, n - 1);
  }

  lemma {:induction false} HaveRuns(cfgs: seq<Config>, fs0: Fs, moves: seq<Move>)
    requires Layout(cfgs, fs0)
    ensures |Execute(cfgs, moves, Initial(cfgs, fs0)).runs| == |cfgs|
  {
    ExecuteKeepsInv(cfgs, fs0, moves);
  }

  // ---------- temp files left behind ----------

  /** The `t`-th move is a failure of run `i` to remove its temp file. */
  ghost predicate RemovalFailed(cfgs: seq<Config>, fs0: Fs, moves: seq<Move>, i: nat, t: nat)
    requires i < |cfgs|
  {
    && t < |moves| && moves[t] == Move(i, Fault)
    && var s := Execute(cfgs, moves[..t], Initial(cfgs, fs0));
       i < |s.runs| && s.runs[i].Cleaning? && HasTemp(cfgs[i], s.fs)
  }

  /** While others run, too, a run is over with its temp file left behind exactly if it failed to remove
      it; a run that has published has none. */
  lemma {:induction false} TempLeftIff(cfgs: seq<Config>, fs0: Fs, moves: seq<Move>, i: nat)
    requires Layout(cfgs, fs0) && i < |cfgs|
    ensures var s := Execute(cfgs, moves, Initial(cfgs, fs0));
            && |s.runs| == |cfgs|
            && (s.runs[i].Failed? && HasTemp(cfgs[i], s.fs)
                <==> exists t: nat :: RemovalFailed(cfgs, fs0, moves, i, t))
            && (s.runs[i].Published? ==> !HasTemp(cfgs[i], s.fs))
  {
    hide RunOk, EntryOk, Exec, FilesApart, SourcesFrozen, InitialKept, HasTemp;
    var s' := Execute(cfgs, moves, Initial(cfgs, fs0));
    ExecuteKeepsInv(cfgs, fs0, moves);
    PublishedHasNoTemp(cfgs[i], s'.runs[i], s'.fs);
    if moves != [] {
      var n := |moves| - 1;
      var before, m := moves[..n], moves[n];
      var s := Execute(cfgs, before, Initial(cfgs, fs0));
      TempLeftIff(cfgs, fs0, before, i);
      ExecuteKeepsInv(cfgs, fs0, before);
      if m.i == i {
        ReadyToMove(cfgs, fs0, s, i);
        LeftByFailedRemoval(cfgs[i], m.l, Local(s.runs[i], s.fs));
      } else if m.i < |cfgs| {
        MoveSound(cfgs, fs0, s, m);
        TempOfOthers(cfgs, fs0, s, s', m.i, i);
      }
      assert forall t: nat :: t < n ==> before[..t] == moves[..t];
      assert RemovalFailed(cfgs, fs0, moves, i, n)
             <==> m == Move(i, Fault) && s.runs[i].Cleaning? && HasTemp(cfgs[i], s.fs);
      assert forall t: nat :: t != n ==>
          (RemovalFailed(cfgs, fs0, moves, i, t) <==> RemovalFailed(cfgs, fs0, before, i, t));
    }
  }

  lemma {:induction false} PublishedHasNoTemp(c: Config, run: Run, fs: Fs)
    requires RunOk(c, run, fs)
    ensures run.Published? ==> !HasTemp(c, fs)
  {
  }

  lemma {:induction false} TempOfOthers(cfgs: seq<Config>, fs0: Fs, s: System, s': System, j: nat, i: nat)
    requires Layout(cfgs, fs0) && Stepped(cfgs, s, s', j) && i < |cfgs| && i != j
    ensures HasTemp(cfgs[i], s'.fs) <==> HasTemp(cfgs[i], s.fs)
  {
    hide RunOk;
    if cfgs[i].Temp().Ok? {
      assert IsTemp(cfgs, cfgs[i].Temp().value);
    }
  }

  // ---------- what is at a path, at any time ----------

  /** The path is as it was at first. */
  ghost predicate Untouched(fs0: Fs, fs: Fs, p: Path) {
    && (p in fs0.dir <==> p in fs.dir)
    && (p in fs0.dir ==> fs.dir[p] == fs0.dir[p] && fs0.dir[p] in fs.nodes && fs0.dir[p] in fs0.nodes
                         && fs.nodes[fs.dir[p]] == fs0.nodes[fs0.dir[p]])
  }

  /** At `p` is the complete plaintext of run `j`, all of it durable; its input, still as it was when it
      was read, decodes to it. */
  ghost predicate Delivered(cfgs: seq<Config>, fs0: Fs, s: System, j: nat, p: Path) {
    && Fills(cfgs, s, j, p) && ReadsInput(cfgs, fs0, s, j)
    && s.fs.dir[p] in s.fs.nodes && s.fs.nodes[s.fs.dir[p]] == Inode(s.runs[j].msg, |s.runs[j].msg|)
    && cfgs[j].Decode(s.fs.Data(s.runs[j].src)) == Ok(s.runs[j].msg)
  }

  /** After any interleaving of any runs' actions, failures included, every path that is not a temp path
      is as it was at first or holds the complete, durable plaintext of a run that was told to put it there. */
  lemma {:induction false} PublishIsAtomic(cfgs: seq<Config>, fs0: Fs, moves: seq<Move>, p: Path)
    requires Layout(cfgs, fs0) && !IsTemp(cfgs, p)
    ensures var s := Execute(cfgs, moves, Initial(cfgs, fs0));
            Untouched(fs0, s.fs, p) || exists j: nat :: Delivered(cfgs, fs0, s, j, p)
  {
    hide RunOk;
    ExecuteKeepsInv(cfgs, fs0, moves);
    var s := Execute(cfgs, moves, Initial(cfgs, fs0));
    assert EntryOk(cfgs, fs0, s, p);
    if j: nat :| Fills(cfgs, s, j, p) {
      PublishedFile(cfgs[j], s.runs[j], s.fs);
      RunsReadTheirInput(cfgs, fs0, moves, j);
      assert Delivered(cfgs, fs0, s, j, p);
    }
  }

  // ---------- crashes ----------

  /** What a crash may leave of a file. */
  ghost predicate Survives(before: Inode, after: Inode) {
    after.data <= before.data && before.durable <= |after.data|
  }

  /** A crash image: the directory as it was at some moment, of each file at least the durable part. */
  ghost predicate CrashImage(dirs: Fs, fs: Fs, image: Fs) {
    && image.dir == dirs.dir && image.nodes.Keys == fs.nodes.Keys
    && forall n :: n in fs.nodes ==> Survives(fs.nodes[n], image.nodes[n])
  }

  /** At `p` is what a crash of the initial state could have left there. */
  ghost predicate UntouchedAfterCrash(fs0: Fs, image: Fs, p: Path) {
    && (p in fs0.dir <==> p in image.dir)
    && (p in fs0.dir ==> image.dir[p] == fs0.dir[p] && fs0.dir[p] in fs0.nodes && fs0.dir[p] in image.nodes
                         && Survives(fs0.nodes[fs0.dir[p]], image.nodes[image.dir[p]]))
  }

  /** At `p` is the complete plaintext of run `j`, decoded from its input. */
  ghost predicate DeliveredAfterCrash(cfgs: seq<Config>, fs0: Fs, s: System, image: Fs, j: nat, p: Path) {
    && j < |cfgs| == |s.runs| && cfgs[j].output == p && s.runs[j].Published? && ReadsInput(cfgs, fs0, s, j)
    && p in image.dir && image.Data(image.dir[p]) == s.runs[j].msg
    && cfgs[j].Decode(s.fs.Data(s.runs[j].src)) == Ok(s.runs[j].msg)
  }

  /** A crash at any moment, which may even forget the latest directory changes, leaves at every path
      that is not a temp path what a crash of the initial state could have left, or a run's complete
      plaintext. */
  lemma {:induction false} CrashIsSafe(cfgs: seq<Config>, fs0: Fs, moves: seq<Move>, t: nat, image: Fs, p: Path)
    requires Layout(cfgs, fs0) && !IsTemp(cfgs, p) && t <= |moves|
    requires CrashImage(Execute(cfgs, moves[..t], Initial(cfgs, fs0)).fs,
                        Execute(cfgs, moves, Initial(cfgs, fs0)).fs, image)
    ensures || UntouchedAfterCrash(fs0, image, p)
            || exists j: nat :: DeliveredAfterCrash(cfgs, fs0, Execute(cfgs, moves, Initial(cfgs, fs0)), image, j, p)
  {
    hide RunOk, EntryOk, Execute, Config.Decode, FilesApart, SourcesFrozen;
    var s, s' := Execute(cfgs, moves[..t], Initial(cfgs, fs0)), Execute(cfgs, moves, Initial(cfgs, fs0));
    PublishIsAtomic(cfgs, fs0, moves[..t], p);
    ExecuteKeepsInv(cfgs, fs0, moves);
    if j: nat :| Delivered(cfgs, fs0, s, j, p) {
      PublishedStays(cfgs, fs0, moves, t, j);
      PublishedFile(cfgs[j], s'.runs[j], s'.fs);
      RunsReadTheirInput(cfgs, fs0, moves, j);
      assert DeliveredAfterCrash(cfgs, fs0, s', image, j, p);
    } else {
      assert UntouchedAfterCrash(fs0, image, p);
    }
  }

  // ---------- what is published is authentic ----------

  /** If the runs use the ideal cipher after some history of encryptions with fresh sessions, a changed
      path holds the plaintext of a blob that the history completed under the run's key and id, and that
      blob was the run's input. */
  lemma {:induction false} PublishedIsAuthentic(a: Scheme, h: seq<Event>, cfgs: seq<Config>, fs0: Fs,
          moves: seq<Move>, p: Path)
    requires a.Lawful() && FreshSessions(h)
    requires Layout(cfgs, fs0) && !IsTemp(cfgs, p)
    requires forall j :: 0 <= j < |cfgs| ==> cfgs[j].a == a.Guarded(LogOf(a, h))
    ensures var s := Execute(cfgs, moves, Initial(cfgs, fs0));
            || Untouched(fs0, s.fs, p)
            || exists j: nat, i :: 0 <= i < |h| && Delivered(cfgs, fs0, s, j, p)
                 && h[i].Wrote(a, s.fs.Data(s.runs[j].src), s.fs.Data(s.fs.dir[p]), cfgs[j].wk, cfgs[j].id)
  {
    hide Event.Wrote, DecodeBlob, Scheme.Guarded, LogOf, FreshSessions, Scheme.Lawful;
    var s := Execute(cfgs, moves, Initial(cfgs, fs0));
    PublishIsAtomic(cfgs, fs0, moves, p);
    if j: nat :| Delivered(cfgs, fs0, s, j, p) {
      var framed := s.fs.Data(s.runs[j].src);
      BlobIntegrity(a, h, Lookahead, framed, s.runs[j].msg, cfgs[j].wk, cfgs[j].id);
      var i :| 0 <= i < |h| && h[i].Wrote(a, framed, s.runs[j].msg, cfgs[j].wk, cfgs[j].id);
      assert h[i].Wrote(a, framed, s.fs.Data(s.fs.dir[p]), cfgs[j].wk, cfgs[j].id);
    }
  }

  // ---------- the loop of every run ----------

  /** The input is its header, the consumed chunks, the pending chunk, the buffer and the unread rest;
      what was written is the opening of the consumed chunks and a beginning of the final plaintext, if
      there is to be one; two ciphertext chunks and the plaintext of one are all that is live. */
  ghost predicate Conserved(c: Config, s: Session, content: Bytes, l: Loop) {
    var consumed := HEADER_LEN + l.position * CT_CHUNK;
    var pending := if l.pending.Some? then l.pending.value else [];
    && consumed <= l.offset <= |content|
    && content == content[..consumed] + pending + l.got + content[l.offset..]
    && OpenPrefix(c.a, s, content[HEADER_LEN..], l.position) == Some(l.written)
    && (c.Decode(content).Ok? ==> l.written <= c.Decode(content).value)
    && |pending| + |l.got| <= 2 * CT_CHUNK
    && (l.pending.Some? && s.OpenAt(c.a, l.position, false, pending).Some?
        ==> |s.OpenAt(c.a, l.position, false, pending).value| == CHUNK_SIZE)
  }

  /** This holds of every run that is in its loop, at any time, and its temp file holds a beginning of
      what was written. */
  lemma {:induction false} LoopConserves(cfgs: seq<Config>, fs0: Fs, moves: seq<Move>, i: nat)
    requires Layout(cfgs, fs0) && i < |cfgs| && cfgs[i].a.Lawful()
    requires i < |Execute(cfgs, moves, Initial(cfgs, fs0)).runs|
    requires Execute(cfgs, moves, Initial(cfgs, fs0)).runs[i].Streaming?
    ensures var s := Execute(cfgs, moves, Initial(cfgs, fs0));
            var run := s.runs[i];
            Conserved(cfgs[i], run.s, s.fs.Data(run.src), run.loop) && s.fs.Data(run.fd) <= run.loop.written
  {
    hide Inv, Execute, Conserved, Scheme.Lawful, Unlocked, LoopOk;
    ExecuteKeepsInv(cfgs, fs0, moves);
    var s := Execute(cfgs, moves, Initial(cfgs, fs0));
    RunsAreOk(cfgs, fs0, s, i);
    LoopOkConserves(cfgs[i], s.runs[i].s, s.fs.Data(s.runs[i].src), s.runs[i].loop);
  }

  lemma {:induction false} RunsAreOk(cfgs: seq<Config>, fs0: Fs, s: System, i: nat)
    requires Inv(cfgs, fs0, s) && i < |cfgs|
    ensures |s.runs| == |cfgs| && RunOk(cfgs[i], s.runs[i], s.fs)
  {
  }

  lemma {:induction false} LoopOkConserves(c: Config, s: Session, content: Bytes, l: Loop)
    requires c.a.Lawful() && Unlocked(c, content, s) && LoopOk(c.a, s, content, l)
    ensures Conserved(c, s, content, l)
  {
    hide Scheme.Lawful, OpenBody, OpenPrefix, DecodeBlob, Unlocked;
    WrittenIsPrefix(c, s, content, l);
    if l.pending.Some? {
      LawfulLength(c.a, s, l.position, l.pending.value);
    }
    hide Session.OpenAt;
    var consumed := HEADER_LEN + l.position * CT_CHUNK;
    InFourParts(content, consumed, if l.pending.Some? then consumed + CT_CHUNK else consumed, l.offset);
  }

  lemma {:induction false} InFourParts(x: Bytes, i: nat, j: nat, k: nat)
    requires i <= j <= k <= |x|
    ensures x == x[..i] + x[i..j] + x[j..k] + x[k..]
  {
  }

  lemma {:induction false} WrittenIsPrefix(c: Config, s: Session, content: Bytes, l: Loop)
    requires Unlocked(c, content, s) && LoopOk(c.a, s, content, l)
    ensures c.Decode(content).Ok? ==> l.written <= c.Decode(content).value
  {
    OpenAfterPrefix(c.a, s, content[HEADER_LEN..], l.position);
  }

  lemma {:induction false} LawfulLength(a: Scheme, s: Session, position: Counter, ct: Bytes)
    requires a.Lawful()
    ensures s.OpenAt(a, position, false, ct).Some? ==> |s.OpenAt(a, position, false, ct).value| + TAG_LEN == |ct|
  {
  }
}
