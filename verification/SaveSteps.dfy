/**
 What saving does to the files, step by step. The process may fail or be killed between any two
 steps, a file being written may be there in part, and moving a file is atomic.
 */
module SaveSteps {
  import opened Bytes
  import opened Options

  type Content = seq<byte>

  /** The secrets file, its `.bkp` and the temporary file of the save under way. */
  datatype Disk = Disk(path: Option<Content>, backup: Option<Content>, temp: Option<Content>)

  datatype Phase = Idle | Writing(image: Content) | Written(image: Content) | BackedUp(image: Content)

  /** Along with the files, the last image a save put in place. */
  datatype State = State(disk: Disk, phase: Phase, committed: Content)

  datatype Step =
    | OpenTemp(image: Content)
    | Append(bytes: Content)
    | Finish
    | BackUp
    | MoveTemp
    | Stop                      // a failure, a crash, or the end of a save
    | Recreate(empty: Content)  // setting the store up again when its file is not there, whatever that leaves

  predicate Enabled(s: State, step: Step) {
    match step
    case OpenTemp(_) => s.phase.Idle?
    case Append(bytes) => s.phase.Writing? && s.disk.temp.Some? && s.disk.temp.value + bytes <= s.phase.image
    case Finish => s.phase.Writing? && s.disk.temp == Some(s.phase.image)
    case BackUp => s.phase.Written?
    case MoveTemp => s.phase.BackedUp?
    case Stop => true
    case Recreate(_) => s.phase.Idle? && s.disk.path.None?
  }

  function Next(s: State, step: Step): State
    requires Enabled(s, step)
  {
    match step
    case OpenTemp(image) => s.(disk := s.disk.(temp := Some([])), phase := Writing(image))
    case Append(bytes) => s.(disk := s.disk.(temp := Some(s.disk.temp.value + bytes)))
    case Finish => s.(phase := Written(s.phase.image))
    case BackUp =>
      if s.disk.path.None? then s.(phase := Idle)
      else s.(disk := s.disk.(path := None, backup := s.disk.path), phase := BackedUp(s.phase.image))
    case MoveTemp => State(s.disk.(path := s.disk.temp, temp := None), Idle, s.phase.image)
    case Stop => s.(phase := Idle)
    case Recreate(empty) => s.(disk := s.disk.(path := Some(empty)))
  }

  ghost predicate RunEnabled(s: State, steps: seq<Step>)
    decreases |steps|
  {
    steps == [] || (Enabled(s, steps[0]) && RunEnabled(Next(s, steps[0]), steps[1..]))
  }

  ghost function Run(s: State, steps: seq<Step>): State
    requires RunEnabled(s, steps)
    decreases |steps|
  {
    if steps == [] then s else Run(Next(s, steps[0]), steps[1..])
  }

  /** A run can be continued by another. */
  lemma {:induction false} RunAppend(s: State, a: seq<Step>, b: seq<Step>)
    requires RunEnabled(s, a) && RunEnabled(Run(s, a), b)
    ensures RunEnabled(s, a + b) && Run(s, a + b) == Run(Run(s, a), b)
    decreases |a|
  {
    if a == [] {
      assert a + b == b;
    } else {
      assert (a + b)[1..] == a[1..] + b;
      RunAppend(Next(s, a[0]), a[1..], b);
    }
  }

  /** The temporary file is complete from when it has been written until it is moved. */
  ghost predicate TempInOrder(s: State) {
    && (s.phase.Writing? ==> s.disk.temp.Some? && s.disk.temp.value <= s.phase.image)
    && (s.phase.Written? || s.phase.BackedUp? ==> s.disk.temp == Some(s.phase.image))
    && (s.phase.BackedUp? ==> s.disk.path.None?)
  }

  /** The last image put in place is still whole, in its place or in the backup. */
  ghost predicate Safe(s: State) {
    s.disk.path == Some(s.committed) || s.disk.backup == Some(s.committed)
  }

  /** Nothing but images of finished saves is ever at the path, once it has been there. */
  ghost predicate InPlace(s: State) {
    s.disk.path.None? || s.disk.path == Some(s.committed)
  }

  /** A save must not back up a file other than the last image: that would replace the image. */
  predicate Careful(s: State, step: Step) {
    step.BackUp? && s.disk.path.Some? ==> s.disk.path.value == s.committed
  }

  lemma StepInOrder(s: State, step: Step)
    requires Enabled(s, step) && TempInOrder(s)
    ensures TempInOrder(Next(s, step))
  {
  }

  /** A step keeps the last image exactly if it is careful. */
  lemma StepSafe(s: State, step: Step)
    requires Enabled(s, step) && TempInOrder(s) && Safe(s)
    ensures Safe(Next(s, step)) <==> Careful(s, step)
  {
  }

  ghost predicate RunSafe(s: State, steps: seq<Step>)
    requires RunEnabled(s, steps)
    decreases |steps|
  {
    Safe(s) && (steps == [] || RunSafe(Next(s, steps[0]), steps[1..]))
  }

  ghost predicate RunCareful(s: State, steps: seq<Step>)
    requires RunEnabled(s, steps)
    decreases |steps|
  {
    steps == [] || (Careful(s, steps[0]) && RunCareful(Next(s, steps[0]), steps[1..]))
  }

  /** The last image is there at every moment of a run exactly if every step is careful. */
  lemma {:induction false} SafeIffCareful(s: State, steps: seq<Step>)
    requires RunEnabled(s, steps) && TempInOrder(s) && Safe(s)
    ensures RunSafe(s, steps) <==> RunCareful(s, steps)
    decreases |steps|
  {
    if steps == [] {
    } else {
      StepInOrder(s, steps[0]);
      StepSafe(s, steps[0]);
      if Safe(Next(s, steps[0])) {
        SafeIffCareful(Next(s, steps[0]), steps[1..]);
      }
    }
  }

  /**
   Runs of saves alone, stopped wherever they may be: the file at the path is never there in
   part, and the last image put in place is never lost.
   */
  lemma {:induction false} SavesAreSafe(s: State, steps: seq<Step>)
    requires RunEnabled(s, steps) && TempInOrder(s) && Safe(s) && InPlace(s)
    requires forall k :: 0 <= k < |steps| ==> !steps[k].Recreate?
    ensures RunSafe(s, steps)
    ensures InPlace(Run(s, steps)) && Safe(Run(s, steps)) && TempInOrder(Run(s, steps))
    decreases |steps|
  {
    if steps == [] {
    } else {
      StepInOrder(s, steps[0]);
      StepSafe(s, steps[0]);
      SavesAreSafe(Next(s, steps[0]), steps[1..]);
    }
  }

  // ----- Files that open -----

  /** Whether the check of a file, made only after it has been put in place, succeeds. */
  type Opens = Content -> bool

  /** The store can be opened from the path, or failing that from the backup. */
  predicate Recoverable(opens: Opens, d: Disk) {
    (d.path.Some? && opens(d.path.value)) || (d.backup.Some? && opens(d.backup.value))
  }

  /** What is backed up opens. */
  predicate BacksUpGood(opens: Opens, s: State, step: Step) {
    step.BackUp? && s.disk.path.Some? ==> opens(s.disk.path.value)
  }

  /** A step leaves a file that opens exactly if it backs up no other. */
  lemma StepRecoverable(opens: Opens, s: State, step: Step)
    requires Enabled(s, step) && TempInOrder(s) && Recoverable(opens, s.disk)
    ensures Recoverable(opens, Next(s, step).disk) <==> BacksUpGood(opens, s, step)
  {
  }

  ghost predicate RunRecoverable(opens: Opens, s: State, steps: seq<Step>)
    requires RunEnabled(s, steps)
    decreases |steps|
  {
    Recoverable(opens, s.disk) && (steps == [] || RunRecoverable(opens, Next(s, steps[0]), steps[1..]))
  }

  ghost predicate RunBacksUpGood(opens: Opens, s: State, steps: seq<Step>)
    requires RunEnabled(s, steps)
    decreases |steps|
  {
    steps == [] || (BacksUpGood(opens, s, steps[0]) && RunBacksUpGood(opens, Next(s, steps[0]), steps[1..]))
  }

  /** A file opens at every moment of a run exactly if no save backs up one that does not. */
  lemma {:induction false} RecoverableIffGoodBackups(opens: Opens, s: State, steps: seq<Step>)
    requires RunEnabled(s, steps) && TempInOrder(s) && Recoverable(opens, s.disk)
    ensures RunRecoverable(opens, s, steps) <==> RunBacksUpGood(opens, s, steps)
    decreases |steps|
  {
    if steps == [] {
    } else {
      StepInOrder(s, steps[0]);
      StepRecoverable(opens, s, steps[0]);
      if Recoverable(opens, Next(s, steps[0]).disk) {
        RecoverableIffGoodBackups(opens, Next(s, steps[0]), steps[1..]);
      }
    }
  }

  /** What is at the path opens, and so does what is being saved. */
  ghost predicate Good(opens: Opens, s: State) {
    && (s.disk.path.Some? ==> opens(s.disk.path.value))
    && (!s.phase.Idle? ==> opens(s.phase.image))
  }

  /** It does for runs that save and set up nothing that does not open. */
  lemma {:induction false} GoodImagesAreRecoverable(opens: Opens, s: State, steps: seq<Step>)
    requires RunEnabled(s, steps) && TempInOrder(s) && Recoverable(opens, s.disk) && Good(opens, s)
    requires forall k :: 0 <= k < |steps| ==> (steps[k].OpenTemp? ==> opens(steps[k].image))
    requires forall k :: 0 <= k < |steps| ==> (steps[k].Recreate? ==> opens(steps[k].empty))
    ensures RunRecoverable(opens, s, steps)
    decreases |steps|
  {
    if steps == [] {
    } else {
      StepInOrder(s, steps[0]);
      StepRecoverable(opens, s, steps[0]);
      GoodImagesAreRecoverable(opens, Next(s, steps[0]), steps[1..]);
    }
  }

  /** A state as it is after the store was opened. */
  function Opened(image: Content, backup: Option<Content>): State {
    State(Disk(Some(image), backup, None), Idle, image)
  }

  lemma TakeStep(s: State, step: Step, more: seq<Step>)
    requires Enabled(s, step) && RunEnabled(Next(s, step), more)
    ensures RunEnabled(s, [step] + more) && Run(s, [step] + more) == Run(Next(s, step), more)
  {
    assert ([step] + more)[1..] == more;
  }

  /** A save as far as the backup. */
  function ToBackUp(image: Content): seq<Step> {
    [OpenTemp(image), Append(image), Finish, BackUp]
  }

  lemma RunToBackUp(s: State, image: Content)
    requires s.phase.Idle? && s.disk.path.Some?
    ensures RunEnabled(s, ToBackUp(image))
    ensures Run(s, ToBackUp(image)) == State(Disk(None, s.disk.path, Some(image)), BackedUp(image), s.committed)
  {
    assert [] + image == image;
    var s1 := Next(s, OpenTemp(image));
    var s2 := Next(s1, Append(image));
    var s3 := Next(s2, Finish);
    TakeStep(s3, BackUp, []);
    TakeStep(s2, Finish, [BackUp]);
    TakeStep(s1, Append(image), [Finish, BackUp]);
    TakeStep(s, OpenTemp(image), [Append(image), Finish, BackUp]);
  }

  /** A save that runs to its end leaves its image in place and the one before in the backup. */
  lemma SaveReplaces(image: Content, before: Content, backup: Option<Content>)
    ensures var steps := ToBackUp(image) + [MoveTemp];
            && RunEnabled(Opened(before, backup), steps)
            && Run(Opened(before, backup), steps) == Opened(image, Some(before))
  {
    RunToBackUp(Opened(before, backup), image);
    TakeStep(Run(Opened(before, backup), ToBackUp(image)), MoveTemp, []);
    RunAppend(Opened(before, backup), ToBackUp(image), [MoveTemp]);
  }

  /** Two saves of images that do not open replace both files; the last image is there all the same. */
  lemma TwoBadSavesLeaveNone(opens: Opens, first: Content, second: Content, third: Content, backup: Option<Content>)
    requires opens(first) && !opens(second) && !opens(third)
    ensures var steps := (ToBackUp(second) + [MoveTemp]) + (ToBackUp(third) + [MoveTemp]);
            && RunEnabled(Opened(first, backup), steps)
            && Run(Opened(first, backup), steps) == Opened(third, Some(second))
            && Safe(Opened(third, Some(second))) && !Recoverable(opens, Opened(third, Some(second)).disk)
  {
    SaveReplaces(second, first, backup);
    SaveReplaces(third, second, Some(first));
    RunAppend(Opened(first, backup), ToBackUp(second) + [MoveTemp], ToBackUp(third) + [MoveTemp]);
  }

  /** Once the file is away and no save is under way, no save can bring one back. */
  lemma {:induction false} StuckWithoutFile(s: State, steps: seq<Step>)
    requires RunEnabled(s, steps) && s.disk.path.None? && !s.phase.BackedUp?
    requires forall k :: 0 <= k < |steps| ==> !steps[k].Recreate?
    ensures Run(s, steps).disk.path.None? && Run(s, steps).disk.backup == s.disk.backup
    ensures Run(s, steps).committed == s.committed
    decreases |steps|
  {
    if steps == [] {
    } else {
      StuckWithoutFile(Next(s, steps[0]), steps[1..]);
    }
  }

  /**
   Setting the store up anew after a save was stopped between its two renames, and saving once
   more, loses the last image: neither file holds it when the empty store has been backed up.
   */
  lemma RecreatedStoreLosesImage(first: Content, second: Content, third: Content, empty: Content)
    requires empty != first
    ensures var steps := ToBackUp(second) + ([Stop, Recreate(empty)] + ToBackUp(third));
            && RunEnabled(Opened(first, None), steps)
            && Run(Opened(first, None), steps).disk == Disk(None, Some(empty), Some(third))
            && !Safe(Run(Opened(first, None), steps))
  {
    var s := Opened(first, None);
    RunToBackUp(s, second);
    var away := Run(s, ToBackUp(second));
    var anew := Next(Next(away, Stop), Recreate(empty));
    TakeStep(Next(away, Stop), Recreate(empty), []);
    TakeStep(away, Stop, [Recreate(empty)]);
    assert [Stop] + [Recreate(empty)] == [Stop, Recreate(empty)];
    RunToBackUp(anew, third);
    RunAppend(away, [Stop, Recreate(empty)], ToBackUp(third));
    RunAppend(s, ToBackUp(second), [Stop, Recreate(empty)] + ToBackUp(third));
  }

  /** The files came to be so by a run of steps, none of which sets the store up anew. */
  ghost predicate Took(before: Disk, steps: seq<Step>, after: Disk, committed: Content) {
    var s := State(before, Idle, committed);
    && RunEnabled(s, steps) && Run(s, steps).disk == after && Run(s, steps).phase == Idle
    && forall k :: 0 <= k < |steps| ==> !steps[k].Recreate?
  }

  lemma RunWritten(s: State, image: Content)
    requires s.phase.Idle?
    ensures RunEnabled(s, [OpenTemp(image), Append(image), Finish])
    ensures Run(s, [OpenTemp(image), Append(image), Finish]) == State(s.disk.(temp := Some(image)), Written(image), s.committed)
  {
    assert [] + image == image;
    var s1 := Next(s, OpenTemp(image));
    var s2 := Next(s1, Append(image));
    TakeStep(s2, Finish, []);
    TakeStep(s1, Append(image), [Finish]);
    TakeStep(s, OpenTemp(image), [Append(image), Finish]);
  }

  lemma ToppedOff(before: Disk, image: Content, committed: Content)
    ensures Took(before, [OpenTemp(image), Append(image), Stop], before.(temp := Some(image)), committed)
  {
    assert [] + image == image;
    var s := State(before, Idle, committed);
    var s1 := Next(s, OpenTemp(image));
    var s2 := Next(s1, Append(image));
    TakeStep(s2, Stop, []);
    TakeStep(s1, Append(image), [Stop]);
    TakeStep(s, OpenTemp(image), [Append(image), Stop]);
  }
}
