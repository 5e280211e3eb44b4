/** Borrowing the agent's selection for the viewer user's copy and paste chords. The
  * window thread starts each handoff and joins the previous one; a restore thread waits
  * and puts the selection back; the compositor applies a selection before the viewer
  * hears of it. Reads and writes of the session clipboard end in a sync, after which
  * every earlier change has been heard of (module ClipboardSync). The agent and the
  * session's applications may select at any moment.
  */
module ClipboardHandoff {
  import opened Options
  import ClipboardSync

  type Contents = ClipboardSync.Contents

  datatype Chord = Copy | Paste

  /** The restore thread. A copy wait is `quiet` once a poll saw no change, until it has
    * looked at the flag and the clock and polls again or gives up.
    */
  datatype Restore =
    | Finished
    | AwaitingCopy(agent: Contents, before: nat, quiet: bool)
    | CopySeen(agent: Contents)
    | HostWritten(agent: Contents)
    | AwaitingRead(agent: Contents)

  /** The window thread, free, joining the restore thread, or past its read of the
    * agent's selection.
    */
  datatype WindowThread = Free | Joining(chord: Chord) | Holding(chord: Chord, agent: Contents)

  /** What a chord took for the agent's selection, beside what it was. */
  datatype Reading = Reading(taken: Contents, agents: Contents)

  /** A selection not made by the bridge. */
  datatype Change = ByAgent(contents: Contents) | BySession(contents: Contents)

  /** `applied` counts the session's selection changes, `generation` those heard of.
    * `agents` is the agent's last selection, `since` the changes since the last chord read
    * it, the first `early` of them before its wait began; `readings` has one entry per chord.
    */
  datatype Bridge = Bridge(
    selection: Contents,
    applied: nat,
    generation: nat,
    host: Contents,
    restore: Restore,
    superseded: bool,
    window: WindowThread,
    agents: Contents,
    since: seq<Change>,
    early: nat,
    readings: seq<Reading>)

  datatype Step =
    | Press(chord: Chord)
    | Read
    | Handoff
    | AgentSelects(contents: Contents)
    | HostSelects(contents: Contents)
    | SessionSelects(contents: Contents)
    | Hear
    | SeeChange
    | SeeNoChange
    | PollAgain
    | GiveUp(timedOut: bool)
    | ForwardCopy
    | PutBack

  function Select(b: Bridge, contents: Contents): Bridge {
    b.(selection := contents, applied := b.applied + 1)
  }

  function Synced(b: Bridge): Bridge {
    b.(generation := b.applied)
  }

  predicate Polling(b: Bridge) {
    b.restore.AwaitingCopy? && !b.restore.quiet
  }

  function Next(b: Bridge, step: Step): Option<Bridge> {
    match step
    case Press(chord) =>
      if b.window != Free then None else Some(b.(superseded := true, window := Joining(chord)))
    case Read =>
      if !b.window.Joining? || b.restore != Finished then None
      else Some(Synced(b).(superseded := false, window := Holding(b.window.chord, b.selection), since := [], early := 0,
                           readings := b.readings + [Reading(b.selection, b.agents)]))
    case Handoff =>
      if !b.window.Holding? then None
      else
        var taken := Synced(b).(window := Free, early := |b.since|);
        Some(match b.window.chord
             case Copy => taken.(restore := AwaitingCopy(b.window.agent, b.applied, false))
             case Paste => Synced(Select(taken, b.host)).(restore := AwaitingRead(b.window.agent)))
    case AgentSelects(contents) =>
      Some(Select(b, contents).(agents := contents, since := b.since + [ByAgent(contents)]))
    case HostSelects(contents) => Some(b.(host := contents))
    case SessionSelects(contents) => Some(Select(b, contents).(since := b.since + [BySession(contents)]))
    case Hear =>
      if b.applied <= b.generation then None else Some(b.(generation := b.generation + 1))
    case SeeChange =>
      if !Polling(b) || b.generation <= b.restore.before then None
      else Some(b.(restore := CopySeen(b.restore.agent)))
    case SeeNoChange =>
      if !Polling(b) || b.restore.before < b.generation then None
      else Some(b.(restore := b.restore.(quiet := true)))
    case PollAgain =>
      if !b.restore.AwaitingCopy? || !b.restore.quiet || b.superseded then None
      else Some(b.(restore := b.restore.(quiet := false)))
    case GiveUp(timedOut) =>
      if !b.restore.AwaitingCopy? || !b.restore.quiet || !(b.superseded || timedOut) then None
      else Some(b.(restore := Finished))
    case ForwardCopy =>
      if !b.restore.CopySeen? then None
      else Some(Synced(b).(host := b.selection, restore := HostWritten(b.restore.agent)))
    case PutBack =>
      if !b.restore.HostWritten? && !b.restore.AwaitingRead? then None
      else Some(Synced(Select(b, b.restore.agent)).(restore := Finished))
  }

  function Execute(b: Bridge, steps: seq<Step>): Option<Bridge> {
    if steps == [] then Some(b)
    else
      var before := Execute(b, steps[..|steps| - 1]);
      if before.None? then None else Next(before.value, steps[|steps| - 1])
  }

  function Opened(agents: Contents, host: Contents): Bridge {
    Bridge(agents, 0, 0, host, Finished, false, Free, agents, [], 0, [])
  }

  // ----- what the changes since a chord's read say

  predicate Borrowed(b: Bridge) {
    b.window.Holding? || b.restore != Finished
  }

  /** What the chord read and its restore thread will put back. */
  function Held(b: Bridge): Contents
    requires Borrowed(b)
  {
    if b.window.Holding? then b.window.agent else b.restore.agent
  }

  /** The selection after `changes`, if the bridge made none. */
  function LastSelected(changes: seq<Change>, first: Contents): Contents {
    if changes == [] then first else changes[|changes| - 1].contents
  }

  /** The agent's selection after `changes`. */
  function LastByAgent(changes: seq<Change>, first: Contents): Contents {
    if changes == [] then first
    else
      var last := changes[|changes| - 1];
      if last.ByAgent? then last.contents else LastByAgent(changes[..|changes| - 1], first)
  }

  /** What a copy wait counts is the changes the agent and the session made since it began,
    * and until something is put back the last of them is the selection.
    */
  ghost predicate CountsChanges(b: Bridge) {
    && b.generation <= b.applied && b.early <= |b.since|
    && (b.window.Holding? ==> b.restore == Finished && b.selection == LastSelected(b.since, b.window.agent))
    && (b.restore.AwaitingCopy? ==>
          && b.restore.before <= b.generation
          && b.applied == b.restore.before + |b.since| - b.early
          && b.selection == LastSelected(b.since, b.restore.agent))
    && (b.restore.CopySeen? ==>
          b.early < |b.since| && b.selection == b.since[|b.since| - 1].contents)
  }

  lemma StepCountsChanges(b: Bridge, step: Step)
    requires CountsChanges(b) && Next(b, step).Some?
    ensures CountsChanges(Next(b, step).value)
  {
  }

  lemma {:induction false} RunCountsChanges(b: Bridge, steps: seq<Step>)
    requires CountsChanges(b) && Execute(b, steps).Some?
    ensures CountsChanges(Execute(b, steps).value)
  {
    if steps != [] {
      var n := |steps| - 1;
      RunCountsChanges(b, steps[..n]);
      StepCountsChanges(Execute(b, steps[..n]).value, steps[n]);
    }
  }

  /** In every run: a copy wait is ended only by a change the agent or the session made since
    * it began, never by the bridge's own writes, and the host gets the last such change.
    */
  lemma OwnWritesNeverEndACopyWait(agents: Contents, host: Contents, steps: seq<Step>)
    requires Execute(Opened(agents, host), steps).Some?
    ensures var b := Execute(Opened(agents, host), steps).value;
      && b.early <= |b.since|
      && (Next(b, SeeChange).Some? ==> b.since[b.early..] != [])
      && (Next(b, ForwardCopy).Some? ==>
            b.since[b.early..] != [] && Next(b, ForwardCopy).value.host == b.since[|b.since| - 1].contents)
  {
    RunCountsChanges(Opened(agents, host), steps);
  }

  // ----- the agent's selection

  /** The session's selection is the agent's whenever no handoff borrows it. */
  ghost predicate Intact(b: Bridge) {
    !Borrowed(b) ==> b.selection == b.agents
  }

  ghost predicate Inv(b: Bridge) {
    && CountsChanges(b)
    && Intact(b)
    && (Borrowed(b) ==> b.agents == LastByAgent(b.since, Held(b)))
    && (forall i :: 0 <= i < |b.readings| ==> b.readings[i].taken == b.readings[i].agents)
  }

  /** The step leaves the session with another selection than the agent's: a wait gives up
    * after the session selected last, what is put back is not what the agent selected
    * meanwhile, or the session selects on its own.
    */
  ghost predicate Displaces(b: Bridge, step: Step) {
    match step
    case GiveUp(_) =>
      b.restore.AwaitingCopy? && LastSelected(b.since, b.restore.agent) != LastByAgent(b.since, b.restore.agent)
    case PutBack =>
      (b.restore.HostWritten? || b.restore.AwaitingRead?) && LastByAgent(b.since, b.restore.agent) != b.restore.agent
    case SessionSelects(contents) => !Borrowed(b) && contents != b.selection
    case _ => false
  }

  /** One step keeps the agent's selection in place exactly when it does not displace it. */
  lemma StepKeepsInvExactlyWhen(b: Bridge, step: Step)
    requires Inv(b) && Next(b, step).Some?
    ensures Inv(Next(b, step).value) <==> !Displaces(b, step)
    ensures Displaces(b, step) ==> !Intact(Next(b, step).value)
  {
    StepCountsChanges(b, step);
    match step
    case AgentSelects(contents) => OneMoreChange(b.since, ByAgent(contents));
    case SessionSelects(contents) => OneMoreChange(b.since, BySession(contents));
    case _ =>
  }

  lemma OneMoreChange(changes: seq<Change>, change: Change)
    ensures forall first :: LastSelected(changes + [change], first) == change.contents
    ensures forall first ::
      LastByAgent(changes + [change], first) ==
      if change.ByAgent? then change.contents else LastByAgent(changes, first)
  {
    assert (changes + [change])[..|changes|] == changes;
  }

  /** While the agent selects nothing itself, only a wait that gives up after the session
    * selected, and the session's own selections outside handoffs, can displace anything.
    */
  lemma WithoutTheAgent(b: Bridge, step: Step)
    requires Displaces(b, step) && forall change :: change in b.since ==> change.BySession?
    ensures step.SessionSelects? || (step.GiveUp? && b.since != [])
  {
    if b.restore != Finished {
      OnlyTheAgentChangesItsOwn(b.since, b.restore.agent);
    }
  }

  lemma {:induction false} OnlyTheAgentChangesItsOwn(changes: seq<Change>, first: Contents)
    requires forall change :: change in changes ==> change.BySession?
    ensures LastByAgent(changes, first) == first
  {
    if changes != [] {
      assert changes[|changes| - 1] in changes;
      OnlyTheAgentChangesItsOwn(changes[..|changes| - 1], first);
    }
  }

  ghost predicate DisplacesNothing(b: Bridge, steps: seq<Step>) {
    forall k :: 0 <= k < |steps| ==> StaysAt(b, steps[..k], steps[k])
  }

  ghost predicate StaysAt(b: Bridge, before: seq<Step>, step: Step) {
    Execute(b, before).Some? ==> !Displaces(Execute(b, before).value, step)
  }

  ghost predicate AlwaysIntact(b: Bridge, steps: seq<Step>) {
    forall k :: 0 <= k <= |steps| ==> IntactAfter(b, steps[..k])
  }

  ghost predicate IntactAfter(b: Bridge, steps: seq<Step>) {
    Execute(b, steps).Some? ==> Intact(Execute(b, steps).value)
  }

  lemma PrefixesDisplaceNothing(b: Bridge, steps: seq<Step>)
    requires steps != []
    ensures var n := |steps| - 1;
      DisplacesNothing(b, steps) <==> DisplacesNothing(b, steps[..n]) && StaysAt(b, steps[..n], steps[n])
  {
    var n := |steps| - 1;
    forall k | 0 <= k < n
      ensures steps[..n][..k] == steps[..k] && steps[..n][k] == steps[k]
    {
    }
    if DisplacesNothing(b, steps[..n]) {
      forall k | 0 <= k < n
        ensures StaysAt(b, steps[..k], steps[k])
      {
        assert StaysAt(b, steps[..n][..k], steps[..n][k]);
      }
    }
    if DisplacesNothing(b, steps) {
      forall k | 0 <= k < n
        ensures StaysAt(b, steps[..n][..k], steps[..n][k])
      {
        assert StaysAt(b, steps[..k], steps[k]);
      }
    }
  }

  lemma PrefixesIntact(b: Bridge, steps: seq<Step>)
    requires steps != []
    ensures AlwaysIntact(b, steps) <==>
      AlwaysIntact(b, steps[..|steps| - 1]) && IntactAfter(b, steps)
  {
    var n := |steps| - 1;
    forall k | 0 <= k <= n
      ensures steps[..n][..k] == steps[..k]
    {
    }
    assert steps[..n + 1] == steps;
    if AlwaysIntact(b, steps[..n]) {
      forall k | 0 <= k <= n
        ensures IntactAfter(b, steps[..k])
      {
        assert IntactAfter(b, steps[..n][..k]);
      }
    }
    if AlwaysIntact(b, steps) {
      forall k | 0 <= k <= n
        ensures IntactAfter(b, steps[..n][..k])
      {
        assert IntactAfter(b, steps[..k]);
      }
    }
  }

  lemma {:induction false} RunKeepsInv(b: Bridge, steps: seq<Step>)
    requires Inv(b) && Execute(b, steps).Some? && DisplacesNothing(b, steps)
    ensures Inv(Execute(b, steps).value)
  {
    if steps != [] {
      var n := |steps| - 1;
      PrefixesDisplaceNothing(b, steps);
      RunKeepsInv(b, steps[..n]);
      StepKeepsInvExactlyWhen(Execute(b, steps[..n]).value, steps[n]);
    }
  }

  /** Over any sequence of copy, paste and superseding chords that displaces nothing, each
    * chord reads the agent's own selection, and the agent has it back in between.
    */
  lemma AgentSelectionIsPreserved(agents: Contents, host: Contents, steps: seq<Step>)
    requires Execute(Opened(agents, host), steps).Some? && DisplacesNothing(Opened(agents, host), steps)
    ensures var b := Execute(Opened(agents, host), steps).value;
      && Intact(b)
      && (forall i :: 0 <= i < |b.readings| ==> b.readings[i].taken == b.readings[i].agents)
  {
    RunKeepsInv(Opened(agents, host), steps);
  }

  /** The agent's selection is in place whenever no handoff borrows it, at every moment of a
    * run, exactly when no wait gives up after the session selected last, nothing is put back
    * over a selection the agent made meanwhile, and the session selects nothing on its own.
    */
  lemma {:induction false} SelectionIntactExactlyWhen(agents: Contents, host: Contents, steps: seq<Step>)
    requires Execute(Opened(agents, host), steps).Some?
    ensures AlwaysIntact(Opened(agents, host), steps) <==> DisplacesNothing(Opened(agents, host), steps)
  {
    var b := Opened(agents, host);
    if steps != [] {
      var n := |steps| - 1;
      SelectionIntactExactlyWhen(agents, host, steps[..n]);
      PrefixesDisplaceNothing(b, steps);
      PrefixesIntact(b, steps);
      if DisplacesNothing(b, steps[..n]) {
        RunKeepsInv(b, steps[..n]);
        StepKeepsInvExactlyWhen(Execute(b, steps[..n]).value, steps[n]);
      }
    }
  }

  // ----- runs that serve the chord

  lemma {:induction false} ExecuteAppends(b: Bridge, first: seq<Step>, more: seq<Step>)
    requires Execute(b, first).Some?
    ensures Execute(b, first + more) == Execute(Execute(b, first).value, more)
  {
    if more == [] {
      assert first + more == first;
    } else {
      var n := |more| - 1;
      ExecuteAppends(b, first, more[..n]);
      assert (first + more)[..|first + more| - 1] == first + more[..n];
    }
  }

  lemma One(b: Bridge, step: Step, after: Bridge)
    requires Next(b, step) == Some(after)
    ensures Execute(b, [step]) == Some(after)
  {
    assert [step][..0] == [];
  }

  lemma Two(b: Bridge, first: Step, middle: Bridge, second: Step, after: Bridge)
    requires Next(b, first) == Some(middle) && Next(middle, second) == Some(after)
    ensures Execute(b, [first, second]) == Some(after)
  {
    One(b, first, middle);
    assert [first, second][..1] == [first];
  }

  lemma Three(b: Bridge, first: Step, one: Bridge, second: Step, two: Bridge, third: Step, after: Bridge)
    requires Next(b, first) == Some(one) && Next(one, second) == Some(two) && Next(two, third) == Some(after)
    ensures Execute(b, [first, second, third]) == Some(after)
  {
    Two(b, first, one, second, two);
    assert [first, second, third][..2] == [first, second];
  }

  function Begin(chord: Chord): seq<Step> {
    [Press(chord), Read, Handoff]
  }

  /** A chord has read the agent's selection and nothing else has happened. */
  function Begun(agents: Contents, host: Contents, chord: Chord): Bridge {
    var b := Opened(agents, host).(readings := [Reading(agents, agents)]);
    match chord
    case Copy => b.(restore := AwaitingCopy(agents, 0, false))
    case Paste => b.(selection := host, applied := 1, generation := 1, restore := AwaitingRead(agents))
  }

  /** A copy chord begins a wait; a paste chord puts the host's contents into the session. */
  lemma Begins(agents: Contents, host: Contents, chord: Chord)
    ensures Execute(Opened(agents, host), Begin(chord)) == Some(Begun(agents, host, chord))
    ensures chord == Copy ==> WaitsForCopy(Begun(agents, host, chord))
    ensures chord == Paste ==> Begun(agents, host, chord).selection == host
  {
    var b := Opened(agents, host);
    var joining := b.(superseded := true, window := Joining(chord));
    var holding := b.(window := Holding(chord, agents), readings := [Reading(agents, agents)]);
    assert [] + [Reading(agents, agents)] == [Reading(agents, agents)];
    Three(b, Press(chord), joining, Read, holding, Handoff, Begun(agents, host, chord));
  }

  /** So many polls that see no change. */
  function Rounds(n: nat): seq<Step> {
    if n == 0 then [] else Rounds(n - 1) + [SeeNoChange, PollAgain]
  }

  /** A copy wait that nothing has changed or superseded. */
  predicate WaitsForCopy(b: Bridge) {
    Polling(b) && !b.superseded && b.generation == b.applied == b.restore.before && b.window == Free
  }

  lemma {:induction false} RoundsChangeNothing(b: Bridge, n: nat)
    requires WaitsForCopy(b)
    ensures Execute(b, Rounds(n)) == Some(b)
  {
    if n > 0 {
      RoundsChangeNothing(b, n - 1);
      ExecuteAppends(b, Rounds(n - 1), [SeeNoChange, PollAgain]);
      Two(b, SeeNoChange, b.(restore := b.restore.(quiet := true)), PollAgain, b);
    }
  }

  function HandOver(): seq<Step> {
    [SeeChange, ForwardCopy, PutBack]
  }

  /** A change the wait has heard of goes to the host, and the borrowed selection back. */
  lemma HandsOver(heard: Bridge)
    requires Polling(heard) && heard.restore.before < heard.generation
    ensures Execute(heard, HandOver()) ==
      Some(heard.(host := heard.selection, selection := heard.restore.agent, applied := heard.applied + 1,
                  generation := heard.applied + 1, restore := Finished))
  {
    var agent := heard.restore.agent;
    var written := Synced(heard).(host := heard.selection, restore := HostWritten(agent));
    Three(heard, SeeChange, heard.(restore := CopySeen(agent)), ForwardCopy, written, PutBack,
          Synced(Select(written, agent)).(restore := Finished));
  }

  function Selects(change: Change): Step {
    match change
    case ByAgent(contents) => AgentSelects(contents)
    case BySession(contents) => SessionSelects(contents)
  }

  function Changes(change: Change): seq<Step> {
    [Selects(change), Hear]
  }

  function Changed(b: Bridge, change: Change): Bridge {
    var agents := if change.ByAgent? then change.contents else b.agents;
    Select(b, change.contents).(since := b.since + [change], agents := agents)
  }

  lemma SelectsAsSaid(b: Bridge, change: Change)
    ensures Next(b, Selects(change)) == Some(Changed(b, change))
  {
  }

  lemma HearsIt(b: Bridge)
    requires b.applied == b.generation + 1
    ensures Next(b, Hear) == Some(Synced(b))
  {
  }

  lemma IsHeard(b: Bridge, change: Change)
    requires b.generation == b.applied
    ensures Execute(b, Changes(change)) == Some(Synced(Changed(b, change)))
  {
    var changed := Changed(b, change);
    SelectsAsSaid(b, change);
    HearsIt(changed);
    Two(b, Selects(change), changed, Hear, Synced(changed));
  }

  /** Whoever changes the selection during a copy wait, and however long that takes within the
    * time-out: the change reaches the host, and the session gets back what was borrowed.
    */
  lemma ChangeReachesTheHost(b: Bridge, n: nat, change: Change)
    requires WaitsForCopy(b)
    ensures var end := Execute(b, Rounds(n) + Changes(change) + HandOver());
      && end.Some? && !Borrowed(end.value)
      && end.value.host == change.contents && end.value.selection == b.restore.agent
      && end.value.agents == if change.ByAgent? then change.contents else b.agents
  {
    RoundsChangeNothing(b, n);
    ExecuteAppends(b, Rounds(n), Changes(change));
    IsHeard(b, change);
    ExecuteAppends(b, Rounds(n) + Changes(change), HandOver());
    HandsOver(Synced(Changed(b, change)));
  }

  /** A chord that copies nothing leaves both selections alone when its time is over. */
  lemma NothingCopiedChangesNothing(b: Bridge, n: nat)
    requires WaitsForCopy(b)
    ensures Execute(b, Rounds(n) + [SeeNoChange, GiveUp(true)]) == Some(b.(restore := Finished))
  {
    RoundsChangeNothing(b, n);
    ExecuteAppends(b, Rounds(n), [SeeNoChange, GiveUp(true)]);
    Two(b, SeeNoChange, b.(restore := b.restore.(quiet := true)), GiveUp(true), b.(restore := Finished));
  }

  /** The user's copy chord from the start: what the session copies after any number of polls
    * is the host's, and the agent's selection is its own again.
    */
  lemma CopyChordServesTheUser(agents: Contents, host: Contents, n: nat, copied: Contents)
    ensures var served := Rounds(n) + Changes(BySession(copied)) + HandOver();
      var end := Execute(Opened(agents, host), Begin(Copy) + served);
      && end.Some? && !Borrowed(end.value)
      && end.value.host == copied && end.value.selection == agents && end.value.agents == agents
  {
    Begins(agents, host, Copy);
    ExecuteAppends(Opened(agents, host), Begin(Copy), Rounds(n) + Changes(BySession(copied)) + HandOver());
    ChangeReachesTheHost(Begun(agents, host, Copy), n, BySession(copied));
  }

  /** The paste chord: the session has what the host selected last until the agent's selection
    * is put back.
    */
  lemma PasteChordServesTheUser(agents: Contents, before: Contents, host: Contents)
    ensures var pasting := Execute(Opened(agents, before), [HostSelects(host)] + Begin(Paste));
      && pasting.Some? && pasting.value.selection == host
      && Next(pasting.value, PutBack).Some?
      && var end := Next(pasting.value, PutBack).value;
         !Borrowed(end) && end.selection == agents && end.host == host
  {
    Begins(agents, host, Paste);
    One(Opened(agents, before), HostSelects(host), Opened(agents, host));
    ExecuteAppends(Opened(agents, before), [HostSelects(host)], Begin(Paste));
  }

  /** The steps that end a restore thread, from where it is. */
  function EndSteps(b: Bridge): seq<Step> {
    match b.restore
    case Finished => []
    case AwaitingCopy(_, before, quiet) =>
      if quiet then [GiveUp(true)]
      else if b.generation <= before then [SeeNoChange, GiveUp(true)]
      else HandOver()
    case CopySeen(_) => [ForwardCopy, PutBack]
    case HostWritten(_) => [PutBack]
    case AwaitingRead(_) => [PutBack]
  }

  /** No state is a dead end: the restore thread can finish from anywhere, so the window
    * thread that joins it gets its turn.
    */
  lemma HandoffsCanEnd(b: Bridge)
    ensures var end := Execute(b, EndSteps(b));
      && end.Some? && end.value.restore == Finished && end.value.window == b.window
      && (b.window.Joining? ==> Next(end.value, Read).Some?)
  {
    match b.restore
    case Finished =>
    case AwaitingCopy(_, before, quiet) =>
      if quiet {
        One(b, GiveUp(true), b.(restore := Finished));
      } else if b.generation <= before {
        Two(b, SeeNoChange, b.(restore := b.restore.(quiet := true)), GiveUp(true), b.(restore := Finished));
      } else {
        HandsOver(b);
      }
    case CopySeen(agent) =>
      var written := Next(b, ForwardCopy).value;
      Two(b, ForwardCopy, written, PutBack, Next(written, PutBack).value);
    case _ => One(b, PutBack, Next(b, PutBack).value);
  }

  // ----- runs that displace it

  function GiveWay(): seq<Step> {
    [Press(Paste), GiveUp(false), Read]
  }

  /** A wait that gives way to a paste chord after the session copied. */
  lemma GivesWay(b: Bridge)
    requires b.restore.AwaitingCopy? && b.restore.quiet && b.window == Free
    ensures Execute(b, GiveWay()) ==
      Some(b.(window := Holding(Paste, b.selection), superseded := false, restore := Finished, since := [], early := 0,
              generation := b.applied, readings := b.readings + [Reading(b.selection, b.agents)]))
  {
    var superseded := b.(superseded := true, window := Joining(Paste));
    var finished := superseded.(restore := Finished);
    Three(b, Press(Paste), superseded, GiveUp(false), finished, Read, Next(finished, Read).value);
  }

  function LateCopy(copied: Contents): seq<Step> {
    Begin(Copy) + [SessionSelects(copied), SeeNoChange] + GiveWay()
  }

  /** A copy that the compositor applied just before a paste chord superseded its wait:
    * the paste takes the user's text for the agent's.
    */
  lemma LateCopyIsTakenForTheAgents(agents: Contents, copied: Contents, host: Contents)
    ensures var b := Execute(Opened(agents, host), LateCopy(copied));
      b.Some? && b.value.window == Holding(Paste, copied) && b.value.readings[1..] == [Reading(copied, agents)]
  {
    var b, waiting := Opened(agents, host), Begun(agents, host, Copy);
    var late := Changed(waiting, BySession(copied));
    var quiet := late.(restore := AwaitingCopy(agents, 0, true));
    Begins(agents, host, Copy);
    ExecuteAppends(b, Begin(Copy), [SessionSelects(copied), SeeNoChange]);
    Two(waiting, SessionSelects(copied), late, SeeNoChange, quiet);
    ExecuteAppends(b, Begin(Copy) + [SessionSelects(copied), SeeNoChange], GiveWay());
    GivesWay(quiet);
  }

  function HeardCopy(copied: Contents): seq<Step> {
    Begin(Copy) + [SeeNoChange] + Changes(BySession(copied)) + GiveWay()
  }

  /** The same with a copy the viewer had heard of, between its last poll and its look at
    * the flag.
    */
  lemma HeardCopyIsTakenForTheAgents(agents: Contents, copied: Contents, host: Contents)
    ensures var b := Execute(Opened(agents, host), HeardCopy(copied));
      b.Some? && b.value.window == Holding(Paste, copied) && b.value.readings[1..] == [Reading(copied, agents)]
  {
    var b, quiet := Opened(agents, host), Begun(agents, host, Copy).(restore := AwaitingCopy(agents, 0, true));
    Begins(agents, host, Copy);
    ExecuteAppends(b, Begin(Copy), [SeeNoChange]);
    One(Begun(agents, host, Copy), SeeNoChange, quiet);
    ExecuteAppends(b, Begin(Copy) + [SeeNoChange], Changes(BySession(copied)));
    IsHeard(quiet, BySession(copied));
    ExecuteAppends(b, Begin(Copy) + [SeeNoChange] + Changes(BySession(copied)), GiveWay());
    GivesWay(Synced(Changed(quiet, BySession(copied))));
  }

  /** What the agent selects while a paste borrows its selection is undone. */
  lemma AgentSelectionIsUndone(agents: Contents, host: Contents, written: Contents)
    ensures var b := Execute(Opened(agents, host), Begin(Paste) + [AgentSelects(written), PutBack]);
      b.Some? && !Borrowed(b.value) && b.value.agents == written && b.value.selection == agents
  {
    var pasting := Begun(agents, host, Paste);
    var after := Changed(pasting, ByAgent(written));
    Begins(agents, host, Paste);
    ExecuteAppends(Opened(agents, host), Begin(Paste), [AgentSelects(written), PutBack]);
    Two(pasting, AgentSelects(written), after, PutBack, Next(after, PutBack).value);
  }

  /** What it selects during a copy wait ends the wait, goes to the host and is undone. */
  lemma AgentSelectionIsTakenForACopy(agents: Contents, host: Contents, n: nat, written: Contents)
    ensures var served := Rounds(n) + Changes(ByAgent(written)) + HandOver();
      var end := Execute(Opened(agents, host), Begin(Copy) + served);
      && end.Some? && !Borrowed(end.value)
      && end.value.host == written && end.value.agents == written && end.value.selection == agents
  {
    Begins(agents, host, Copy);
    ExecuteAppends(Opened(agents, host), Begin(Copy), Rounds(n) + Changes(ByAgent(written)) + HandOver());
    ChangeReachesTheHost(Begun(agents, host, Copy), n, ByAgent(written));
  }

  /** The bridge as the window thread uses it. */
  class ClipboardBridge {
    var b: Bridge

    constructor (agents: Contents, host: Contents)
      ensures b == Opened(agents, host) && Inv(b)
    {
      b := Opened(agents, host);
    }

    /** Any steps of the other threads, the agent and the session; `taken` lists them. */
    method Interleave() returns (ghost taken: seq<Step>)
      modifies this
      ensures Execute(old(b), taken) == Some(b)
      ensures b.window == old(b).window && b.readings == old(b).readings && b.superseded == old(b).superseded
    {
      var steps: nat := *;
      taken := [];
      while steps > 0
        invariant Execute(old(b), taken) == Some(b)
        invariant b.window == old(b).window && b.readings == old(b).readings && b.superseded == old(b).superseded
      {
        var step: Step := *;
        if !step.Press? && !step.Read? && !step.Handoff? && Next(b, step).Some? {
          OthersLeaveTheWindow(b, step);
          OneStepOn(old(b), taken, b, step);
          taken := taken + [step];
          b := Next(b, step).value;
        }
        steps := steps - 1;
      }
    }

    /** A step of the window thread itself. */
    method Take(step: Step)
      requires Next(b, step).Some?
      modifies this
      ensures Next(old(b), step) == Some(b)
    {
      b := Next(b, step).value;
    }

    /** Supersede the pending wait, join its thread, then borrow the selection: what the
      * session has then, which is the agent's unless one of the steps `taken` displaced it.
      * False if the join has not returned yet.
      */
    method Before(chord: Chord) returns (started: bool, ghost taken: seq<Step>)
      requires CountsChanges(b) && b.window == Free
      modifies this
      ensures Execute(old(b), taken) == Some(b) && CountsChanges(b)
      ensures old(Inv(b)) && DisplacesNothing(old(b), taken) ==> Inv(b)
      ensures !started ==> b.window == Joining(chord) && b.readings == old(b).readings
      ensures started ==>
        && b.window == Free && !b.superseded && b.early == |b.since|
        && |b.readings| == |old(b).readings| + 1 && old(b).readings <= b.readings
        && var reading := b.readings[|b.readings| - 1];
           && (chord == Copy ==>
                 && b.restore == AwaitingCopy(reading.taken, b.applied, false)
                 && b.selection == LastSelected(b.since, reading.taken))
           && (chord == Paste ==> b.restore == AwaitingRead(reading.taken) && b.selection == b.host)
    {
      ghost var start := b;
      Take(Press(chord));
      One(start, Press(chord), b);
      ghost var pressed := b;
      ghost var joining := Interleave();
      taken := [Press(chord)] + joining;
      ExecuteAppends(start, [Press(chord)], joining);
      if b.restore != Finished {
        Traced(start, taken);
        return false, taken;
      }
      ghost var joined := b;
      Take(Read);
      OneStepOn(start, taken, joined, Read);
      taken := taken + [Read];
      ghost var read := b;
      ghost var holding := Interleave();
      ExecuteAppends(start, taken, holding);
      taken := taken + holding;
      Traced(start, taken);
      ghost var held := b;
      Take(Handoff);
      OneStepOn(start, taken, held, Handoff);
      taken := taken + [Handoff];
      Traced(start, taken);
      return true, taken;
    }
  }

  lemma OneStepOn(start: Bridge, taken: seq<Step>, b: Bridge, step: Step)
    requires Execute(start, taken) == Some(b) && Next(b, step).Some?
    ensures Execute(start, taken + [step]) == Next(b, step)
  {
    One(b, step, Next(b, step).value);
    ExecuteAppends(start, taken, [step]);
  }

  lemma Traced(start: Bridge, taken: seq<Step>)
    requires CountsChanges(start) && Execute(start, taken).Some?
    ensures CountsChanges(Execute(start, taken).value)
    ensures Inv(start) && DisplacesNothing(start, taken) ==> Inv(Execute(start, taken).value)
  {
    RunCountsChanges(start, taken);
    if Inv(start) && DisplacesNothing(start, taken) {
      RunKeepsInv(start, taken);
    }
  }

  lemma OthersLeaveTheWindow(b: Bridge, step: Step)
    requires Next(b, step).Some? && !step.Press? && !step.Read? && !step.Handoff?
    ensures var after := Next(b, step).value;
      after.window == b.window && after.readings == b.readings && after.superseded == b.superseded
  {
  }
}
