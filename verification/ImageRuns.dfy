/**
 * Runs of the image manager: one thread that serves pulls, one that handles the workers' messages in order, and
 * the workers. Every database call is a step of its own, so the two threads interleave between calls.
 */
module ImageRuns {
  import opened Wrappers
  import opened ImageStore
  import opened ImageManager

  // What is left to do for the message being handled.
  datatype StatusPc =
    | Idle
    | Looking(ident: nat, response: Response, system: string, tag: string)
    | TouchingImage(ident: nat, target: nat, system: string, tag: string, retag: bool)
    | DroppingPull(ident: nat, target: nat, system: string, tag: string, retag: bool)
    | Publishing(ident: nat, response: Response, system: string, tag: string)
    | Untagging(target: nat, system: string, tag: string, after: After)
    | Retagging(target: nat, system: string, tag: string, after: After)
    | SettingAcls(target: nat, response: Response, ident: nat)
    | DroppingLast(ident: nat)

  datatype After = Nothing | ThenAcls(response: Response, ident: nat)

  // How far the pull being served has come.
  datatype PullPc =
    | Quiet
    | Removing(request: Request, victims: set<nat>)
    | Inserted(ident: nat)
    | Marked(ident: nat)
    | Started(ident: nat)

  datatype System = System(
    images: Store, queue: seq<Message>, working: map<nat, nat>, finished: set<nat>, expiring: set<nat>,
    status: StatusPc, pull: PullPc, next: nat)

  datatype Step =
    | BeginPull(request: Request)
    | RemoveVictim(id: nat)
    | InsertRecord
    | MarkPending
    | StartJob
    | FinishPull(now: int)
    // update_states and autoexpire; the record may have changed since it was read.
    | Discard(id: nat)
    // expire and autoexpire
    | BeginExpire(id: nat)
    | Report(id: nat, status: Status, beat: int)
    | ReportReady(id: nat, response: Response)
    | ReportFailure(id: nat, beat: int)
    | ReportExpire(id: nat, status: Status, beat: int)
    | TakeMessage
    | NextCall(rec: Option<nat>, now: int)

  /** How far a pull has come; a worker may report a status again, but not go back. */
  function Rank(s: Status): nat {
    match s
    case Pulling => 1
    case Examination => 2
    case Conversion => 3
    case Transfer => 4
    case _ => 0
  }

  ghost predicate Enabled(s: System, step: Step) {
    match step
    case BeginPull(request) => s.pull.Quiet?
    case RemoveVictim(id) => s.pull.Removing? && id in s.pull.victims
    case InsertRecord => s.pull.Removing? && s.pull.victims == {}
    case MarkPending => s.pull.Inserted?
    case StartJob => s.pull.Marked?
    case FinishPull(now) => s.pull.Started?
    case Discard(id) => true
    case BeginExpire(id) => id in s.images && (s.images[id].status.Ready? || s.images[id].tags != {})
    case Report(id, status, beat) => id in s.working && Reported(status) && s.working[id] <= Rank(status)
    case ReportReady(id, response) => id in s.working && s.working[id] == 4
    case ReportFailure(id, beat) => id in s.working || id in s.finished
    case ReportExpire(id, status, beat) => id in s.expiring && (status.Expiring? || status.Expired? || status.Failure?)
    case TakeMessage => s.status.Idle? && s.queue != []
    case NextCall(rec, now) =>
      !s.status.Idle?
        && if s.status.Looking? then FoundImage(s.images, s.status.system, s.status.response.imageId, rec)
             else rec.None?
  }

  function AfterTags(after: After, target: nat): StatusPc {
    if after.Nothing? then Idle else SettingAcls(target, after.response, after.ident)
  }

  /** The message at the head of the queue. A status is written at once; a result starts with a look-up. */
  function Taken(s: System): System
    requires s.queue != []
  {
    var m, rest := s.queue[0], s.(queue := s.queue[1..]);
    match m
    case State(ident, status, heartbeat) => rest.(images := SetState(s.images, ident, status, heartbeat))
    case Result(ident, response) =>
      if response.None? || ident !in s.images then rest
      else rest.(status := Looking(ident, response.value, s.images[ident].system, s.images[ident].pulltag))
  }

  /** The next database call for the message being handled. */
  function Called(s: System, rec: Option<nat>, now: int): System
    requires s.status.Looking? && rec.Some? ==> rec.value in s.images
  {
    match s.status
    case Idle => s
    case Looking(ident, response, system, tag) =>
      if rec.None? then s.(status := Publishing(ident, response, system, tag))
      else if response.metaOnly then s.(status := Untagging(rec.value, system, tag, ThenAcls(response, ident)))
      else
        var retag := response.tag.None? || response.tag.value !in s.images[rec.value].tags;
        s.(status := TouchingImage(ident, rec.value, system, tag, retag))
    case TouchingImage(ident, target, system, tag, retag) =>
      s.(images := Touch(s.images, target, now), status := DroppingPull(ident, target, system, tag, retag))
    case DroppingPull(ident, target, system, tag, retag) =>
      s.(images := Drop(s.images, ident), status := if retag then Untagging(target, system, tag, Nothing) else Idle)
    case Publishing(ident, response, system, tag) =>
      s.(images := Publish(s.images, ident, response, now), status := Untagging(ident, system, tag, Nothing))
    case Untagging(target, system, tag, after) =>
      s.(images := Untag(s.images, system, tag), status := Retagging(target, system, tag, after))
    case Retagging(target, system, tag, after) =>
      s.(images := Retag(s.images, target, tag), status := AfterTags(after, target))
    case SettingAcls(target, response, ident) =>
      s.(images := SetAcls(s.images, target, response, now), status := DroppingLast(ident))
    case DroppingLast(ident) =>
      s.(images := Drop(s.images, ident), status := Idle)
  }

  ghost function Apply(s: System, step: Step): System
    requires Enabled(s, step)
  {
    match step
    case BeginPull(request) => s.(pull := Removing(request, Victims(s.images, request)))
    case RemoveVictim(id) => s.(images := Drop(s.images, id), pull := Removing(s.pull.request, s.pull.victims - {id}))
    case InsertRecord => s.(images := s.images[s.next := NewRecord(s.pull.request)],
      pull := Inserted(s.next), next := s.next + 1)
    case MarkPending => s.(images := SetState(s.images, s.pull.ident, Pending, None), pull := Marked(s.pull.ident))
    case StartJob => s.(working := s.working[s.pull.ident := 0], pull := Started(s.pull.ident))
    case FinishPull(now) => s.(images := Touch(s.images, s.pull.ident, now), pull := Quiet)
    case Discard(id) => s.(images := Drop(s.images, id))
    case BeginExpire(id) => s.(expiring := s.expiring + {id})
    case Report(id, status, beat) =>
      s.(working := s.working[id := Rank(status)], queue := s.queue + [State(id, status, Some(beat))])
    case ReportReady(id, response) =>
      s.(working := s.working - {id}, finished := s.finished + {id}, queue := s.queue + [Result(id, Some(response))])
    case ReportFailure(id, beat) =>
      s.(working := s.working - {id}, finished := s.finished + {id},
         queue := s.queue + [State(id, Failure, Some(beat))])
    case ReportExpire(id, status, beat) => s.(queue := s.queue + [State(id, status, Some(beat))])
    case TakeMessage => Taken(s)
    case NextCall(rec, now) => Called(s, rec, now)
  }

  const START: System := System(map[], [], map[], {}, {}, Idle, Quiet, 0)

  /** The run of these steps, each enabled when its turn comes. */
  ghost predicate IsRun(s: System, steps: seq<Step>, t: System)
    decreases |steps|
  {
    if steps == [] then s == t
    else Enabled(s, steps[0]) && IsRun(Apply(s, steps[0]), steps[1..], t)
  }

  /* The invariant. */

  predicate IsProgress(m: Message, id: nat) {
    m.State? && m.ident == id && Reported(m.status)
  }

  predicate WellSent(m: Message) {
    m.State? ==> Reported(m.status) || m.status.Failure? || m.status.Expiring? || m.status.Expired?
  }

  ghost predicate ProgressAhead(queue: seq<Message>, id: nat) {
    exists i :: 0 <= i < |queue| && IsProgress(queue[i], id)
  }

  /** No progress will be reported for this record any more. */
  ghost predicate Settled(s: System, id: nat) {
    id in s.finished && id !in s.working && !ProgressAhead(s.queue, id)
  }

  predicate HasJob(s: System, id: nat) {
    id in s.working || id in s.finished
  }

  predicate Over(images: Store, id: nat) {
    id in images ==> !InProgress(images[id].status)
  }

  predicate InSystem(images: Store, id: nat, system: string) {
    id in images ==> images[id].system == system
  }

  /** Behind a message that ends a job, and in the job itself, there is no more progress. */
  ghost predicate Ended(s: System, i: nat)
    requires i < |s.queue|
  {
    && WellSent(s.queue[i]) && HasJob(s, s.queue[i].ident)
    && (!IsProgress(s.queue[i], s.queue[i].ident) ==>
          && s.queue[i].ident in s.finished && s.queue[i].ident !in s.working
          && !ProgressAhead(s.queue[i + 1..], s.queue[i].ident))
  }

  predicate AwaitsJob(s: System, id: nat) {
    (s.pull.Inserted? || s.pull.Marked?) && s.pull.ident == id
  }

  ghost predicate RecordOk(s: System, id: nat)
    requires id in s.images
  {
    var r := s.images[id];
    && id < s.next
    && (HasJob(s, id) || (AwaitsJob(s, id) && InProgress(r.status) && r.tags == {}))
    && (id in s.working || ProgressAhead(s.queue, id) ==> InProgress(r.status))
    && (r.tags != {} ==> !InProgress(r.status))
    && !r.status.Success?
  }

  ghost predicate AfterOk(s: System, after: After) {
    after.ThenAcls? ==> Settled(s, after.ident)
  }

  ghost predicate StatusOk(s: System) {
    match s.status
    case Idle => true
    case Looking(ident, response, system, tag) => Settled(s, ident) && InSystem(s.images, ident, system)
    case TouchingImage(ident, target, system, tag, retag) =>
      Settled(s, ident) && Settled(s, target) && Over(s.images, target) && InSystem(s.images, target, system)
    case DroppingPull(ident, target, system, tag, retag) =>
      Settled(s, ident) && Settled(s, target) && Over(s.images, target) && InSystem(s.images, target, system)
    case Publishing(ident, response, system, tag) =>
      Settled(s, ident) && InSystem(s.images, ident, system) && NoImage(s.images, system, response.imageId)
    case Untagging(target, system, tag, after) =>
      Settled(s, target) && Over(s.images, target) && InSystem(s.images, target, system) && AfterOk(s, after)
    case Retagging(target, system, tag, after) =>
      && Settled(s, target) && Over(s.images, target) && InSystem(s.images, target, system) && AfterOk(s, after)
      && NoHolder(s.images, system, tag)
    case SettingAcls(target, response, ident) => Settled(s, target) && Over(s.images, target) && Settled(s, ident)
    case DroppingLast(ident) => Settled(s, ident)
  }

  ghost predicate JobsOk(s: System) {
    && (forall id :: id in s.working ==> id < s.next && id !in s.finished)
    && (forall id :: id in s.finished ==> id < s.next)
    && (forall id :: id in s.expiring ==> Settled(s, id))
    && (s.pull.Inserted? || s.pull.Marked? ==> s.pull.ident < s.next && !HasJob(s, s.pull.ident))
  }

  ghost predicate Inv(s: System) {
    && JobsOk(s)
    && (forall i :: 0 <= i < |s.queue| ==> Ended(s, i))
    && (forall id :: id in s.images ==> RecordOk(s, id))
    && StatusOk(s)
    && OneHolderPerTag(s.images)
    && OneRecordPerImage(s.images)
  }

  /* Each step keeps it. */

  lemma SettledStays(s: System, step: Step, id: nat)
    requires Enabled(s, step) && JobsOk(s) && Settled(s, id)
    ensures Settled(Apply(s, step), id)
  {
    var t := Apply(s, step);
    assert step.TakeMessage? ==> t.queue == s.queue[1..];
    forall i | 0 <= i < |t.queue| ensures !IsProgress(t.queue[i], id) {
      if step.TakeMessage? {
        assert t.queue[i] == s.queue[i + 1];
      } else if i < |s.queue| {
        assert t.queue[i] == s.queue[i];
      }
    }
  }

  lemma JobStays(s: System, step: Step, id: nat)
    requires Enabled(s, step) && HasJob(s, id)
    ensures HasJob(Apply(s, step), id)
  {
  }

  lemma JobsKept(s: System, step: Step)
    requires Inv(s) && Enabled(s, step)
    ensures JobsOk(Apply(s, step))
  {
    hide StatusOk, OneHolderPerTag, OneRecordPerImage, Ended;
    var t := Apply(s, step);
    forall id | id in t.expiring ensures Settled(t, id) {
      if id in s.expiring {
        SettledStays(s, step, id);
      } else {
        assert RecordOk(s, id);
      }
    }
  }

  lemma QueueKept(s: System, step: Step)
    requires Inv(s) && Enabled(s, step)
    ensures forall i :: 0 <= i < |Apply(s, step).queue| ==> Ended(Apply(s, step), i)
  {
    hide StatusOk, OneHolderPerTag, OneRecordPerImage, RecordOk, Handled;
    var t := Apply(s, step);
    if step.TakeMessage? {
      forall i | 0 <= i < |t.queue| ensures Ended(t, i) {
        assert Ended(s, i + 1);
        assert t.queue[i] == s.queue[i + 1] && t.queue[i + 1..] == s.queue[i + 2..];
      }
    } else {
      assert s.queue <= t.queue;
      forall i | 0 <= i < |t.queue| ensures Ended(t, i) {
        if i < |s.queue| {
          assert Ended(s, i) && t.queue[i] == s.queue[i];
          EndStays(s, step, i);
        } else {
          assert t.queue[i + 1..] == [];
        }
      }
    }
  }

  lemma EndStays(s: System, step: Step, i: nat)
    requires JobsOk(s) && Enabled(s, step) && !step.TakeMessage? && i < |s.queue| && Ended(s, i)
    ensures i < |Apply(s, step).queue| && Ended(Apply(s, step), i)
  {
    var t, m := Apply(s, step), s.queue[i];
    JobStays(s, step, m.ident);
    if !IsProgress(m, m.ident) && |t.queue| > |s.queue| {
      var more := t.queue[|s.queue|];
      var before, behind := s.queue[i + 1..], t.queue[i + 1..];
      assert behind == before + [more];
      assert !IsProgress(more, m.ident);
      forall k | 0 <= k < |behind| ensures !IsProgress(behind[k], m.ident) {
        if k < |before| {
          assert behind[k] == before[k];
        }
      }
    }
  }

  /* Records. */

  /** The change to one record in one step, seen from the record. */
  lemma RecordsKept(s: System, step: Step)
    requires Inv(s) && Enabled(s, step)
    ensures forall id :: id in Apply(s, step).images ==> RecordOk(Apply(s, step), id)
  {
    hide OneHolderPerTag, OneRecordPerImage;
    var t := Apply(s, step);
    forall id | id in t.images ensures RecordOk(t, id) {
      if step.NextCall? {
        CallKeepsRecord(s, step, id);
      } else if step.TakeMessage? {
        MessageKeepsRecord(s, step, id);
      } else {
        OtherKeepsRecord(s, step, id);
      }
    }
  }

  lemma OtherKeepsRecord(s: System, step: Step, id: nat)
    requires Inv(s) && Enabled(s, step) && !step.NextCall? && !step.TakeMessage? && id in Apply(s, step).images
    ensures RecordOk(Apply(s, step), id)
  {
    hide OneHolderPerTag, OneRecordPerImage, StatusOk;
    var t := Apply(s, step);
    if id in s.images {
      assert RecordOk(s, id);
      if ProgressAhead(t.queue, id) {
        ProgressComes(s, step, id);
      }
    } else {
      NothingPending(s, id);
    }
  }

  /** Progress for a record is reported only while it has a running job. */
  lemma ProgressComes(s: System, step: Step, id: nat)
    requires Enabled(s, step) && ProgressAhead(Apply(s, step).queue, id)
    ensures ProgressAhead(s.queue, id) || id in s.working
  {
    var t := Apply(s, step);
    var i :| 0 <= i < |t.queue| && IsProgress(t.queue[i], id);
    if step.TakeMessage? {
      assert t.queue[i] == s.queue[i + 1];
    } else if i < |s.queue| {
      assert t.queue[i] == s.queue[i];
    }
  }

  lemma NothingPending(s: System, id: nat)
    requires JobsOk(s) && forall i :: 0 <= i < |s.queue| ==> Ended(s, i)
    requires !HasJob(s, id)
    ensures !ProgressAhead(s.queue, id)
  {
    forall i | 0 <= i < |s.queue| ensures !IsProgress(s.queue[i], id) {
      assert Ended(s, i);
    }
  }

  lemma MessageKeepsRecord(s: System, step: Step, id: nat)
    requires Inv(s) && Enabled(s, step) && step.TakeMessage? && id in Apply(s, step).images
    ensures RecordOk(Apply(s, step), id)
  {
    hide OneHolderPerTag, OneRecordPerImage, StatusOk;
    var t := Apply(s, step);
    var m := s.queue[0];
    assert Ended(s, 0) && t.queue == s.queue[1..];
    assert RecordOk(s, id);
    if ProgressAhead(t.queue, id) {
      ProgressLeft(s.queue, id);
    }
    if IsProgress(m, m.ident) {
      assert ProgressAhead(s.queue, m.ident);
    }
  }

  lemma ProgressLeft(queue: seq<Message>, id: nat)
    requires queue != [] && ProgressAhead(queue[1..], id)
    ensures ProgressAhead(queue, id)
  {
    var i :| 0 <= i < |queue[1..]| && IsProgress(queue[1..][i], id);
    assert queue[i + 1] == queue[1..][i];
  }

  /** What the next call does to one record: it may lose tags, become the image, or be given the tag. */
  predicate CallChange(status: StatusPc, id: nat, before: Record, after: Record) {
    || (after.status == before.status && after.tags <= before.tags)
    || (status.Publishing? && id == status.ident && after.status.Ready?)
    || (status.Retagging? && id == status.target && after.status == before.status)
  }

  lemma CallChanges(s: System, step: Step, id: nat)
    requires Enabled(s, step) && step.NextCall? && id in Apply(s, step).images
    ensures id in s.images && CallChange(s.status, id, s.images[id], Apply(s, step).images[id])
  {
    hide NoImage, NoHolder, FoundImage, IsImage;
  }

  /** A call changes neither the jobs nor the queue. */
  lemma CallLeaves(s: System, step: Step)
    requires Enabled(s, step) && step.NextCall?
    ensures var t := Apply(s, step);
            && t.queue == s.queue && t.working == s.working && t.finished == s.finished
            && t.next == s.next && t.pull == s.pull
  {
    hide FoundImage;
  }

  lemma CallKeepsRecord(s: System, step: Step, id: nat)
    requires Inv(s) && Enabled(s, step) && step.NextCall? && id in Apply(s, step).images
    ensures RecordOk(Apply(s, step), id)
  {
    hide OneHolderPerTag, OneRecordPerImage, Ended, NoImage, NoHolder, FoundImage, Apply, Enabled;
    CallChanges(s, step, id);
    CallLeaves(s, step);
    assert RecordOk(s, id);
  }

  /* The message being handled. */

  lemma StatusKept(s: System, step: Step)
    requires Inv(s) && Enabled(s, step)
    ensures StatusOk(Apply(s, step))
  {
    hide OneHolderPerTag, OneRecordPerImage, RecordOk, Ended, StatusOk;
    if step.NextCall? {
      CallKeepsStatus(s, step);
    } else if step.TakeMessage? {
      MessageStartsStatus(s, step);
    } else {
      OtherKeepsStatus(s, step);
    }
  }

  lemma MessageStartsStatus(s: System, step: Step)
    requires Inv(s) && Enabled(s, step) && step.TakeMessage?
    ensures StatusOk(Apply(s, step))
  {
    hide OneHolderPerTag, OneRecordPerImage, RecordOk;
    assert Ended(s, 0);
    assert Apply(s, step).queue == s.queue[1..];
  }

  /** The pull thread leaves the records alone that have had a job. */
  lemma OtherKeepsRecordOf(s: System, step: Step, id: nat)
    requires JobsOk(s) && Enabled(s, step) && !step.NextCall? && !step.TakeMessage? && Settled(s, id)
    ensures Settled(Apply(s, step), id)
    ensures id in Apply(s, step).images ==>
              id in s.images && (Apply(s, step).images[id] == s.images[id] || (s.pull.Started? && id == s.pull.ident
              && Apply(s, step).images[id] == s.images[id].(lastPull := Apply(s, step).images[id].lastPull)))
  {
    SettledStays(s, step, id);
  }

  lemma OtherAddsNothing(s: System, step: Step, system: string, name: string)
    requires Enabled(s, step) && !step.NextCall? && !step.TakeMessage?
    ensures NoHolder(s.images, system, name) ==> NoHolder(Apply(s, step).images, system, name)
    ensures NoImage(s.images, system, name) ==> NoImage(Apply(s, step).images, system, name)
  {
  }

  lemma OtherKeepsStatus(s: System, step: Step)
    requires JobsOk(s) && StatusOk(s) && Enabled(s, step) && !step.NextCall? && !step.TakeMessage?
    ensures StatusOk(Apply(s, step))
  {
    hide Apply, Enabled, Settled, NoHolder, NoImage, JobsOk;
    KeepsStatusField(s, step);
    match s.status
    case Idle =>
    case Looking(ident, response, system, tag) =>
      OtherKeepsRecordOf(s, step, ident);
    case TouchingImage(ident, target, system, tag, retag) =>
      OtherKeepsRecordOf(s, step, ident);
      OtherKeepsRecordOf(s, step, target);
    case DroppingPull(ident, target, system, tag, retag) =>
      OtherKeepsRecordOf(s, step, ident);
      OtherKeepsRecordOf(s, step, target);
    case Publishing(ident, response, system, tag) =>
      OtherKeepsRecordOf(s, step, ident);
      OtherAddsNothing(s, step, system, response.imageId);
    case Untagging(target, system, tag, after) =>
      OtherKeepsRecordOf(s, step, target);
      if after.ThenAcls? { OtherKeepsRecordOf(s, step, after.ident); }
    case Retagging(target, system, tag, after) =>
      OtherKeepsRecordOf(s, step, target);
      OtherAddsNothing(s, step, system, tag);
      if after.ThenAcls? { OtherKeepsRecordOf(s, step, after.ident); }
    case SettingAcls(target, response, ident) =>
      OtherKeepsRecordOf(s, step, target);
      OtherKeepsRecordOf(s, step, ident);
    case DroppingLast(ident) =>
      OtherKeepsRecordOf(s, step, ident);
  }

  lemma KeepsStatusField(s: System, step: Step)
    requires Enabled(s, step) && !step.NextCall? && !step.TakeMessage?
    ensures Apply(s, step).status == s.status
  {
  }

  lemma CallKeepsStatus(s: System, step: Step)
    requires Inv(s) && Enabled(s, step) && step.NextCall?
    ensures StatusOk(Apply(s, step))
  {
    hide OneHolderPerTag, OneRecordPerImage, Ended, ProgressAhead;
    if s.status.Looking? && step.rec.Some? {
      assert RecordOk(s, step.rec.value);
    }
  }

  /* Tags and images. */

  lemma HoldersKept(s: System, step: Step)
    requires Inv(s) && Enabled(s, step)
    ensures OneHolderPerTag(Apply(s, step).images)
  {
    hide *;
    InvParts(s);
    if step.NextCall? && s.status.Retagging? {
      RetaggingKeepsOne(s, step);
    } else {
      if step.NextCall? {
        CallTakesTags(s, step);
      } else {
        OtherTakesTags(s, step);
      }
      FewerTags(s.images, Apply(s, step).images);
    }
  }

  lemma InvParts(s: System)
    requires Inv(s)
    ensures StatusOk(s) && OneHolderPerTag(s.images)
  {
  }

  lemma RetaggingKeepsOne(s: System, step: Step)
    requires StatusOk(s) && OneHolderPerTag(s.images) && Enabled(s, step) && step.NextCall? && s.status.Retagging?
    ensures OneHolderPerTag(Apply(s, step).images)
  {
    RetagKeepsOne(s.images, s.status.target, s.status.system, s.status.tag);
  }

  lemma CallTakesTags(s: System, step: Step)
    requires Enabled(s, step) && step.NextCall? && !s.status.Retagging?
    ensures NoNewTags(s.images, Apply(s, step).images)
  {
    hide Apply, Enabled;
    forall id | id in Apply(s, step).images && Apply(s, step).images[id].tags != {}
      ensures HadTags(s.images, Apply(s, step).images, id)
    {
      CallTakesTagsOf(s, step, id);
    }
  }

  predicate HadTags(images: Store, after: Store, id: nat)
    requires id in after
  {
    id in images && after[id].tags <= images[id].tags && after[id].system == images[id].system
  }

  lemma CallTakesTagsOf(s: System, step: Step, id: nat)
    requires Enabled(s, step) && step.NextCall? && !s.status.Retagging? && id in Apply(s, step).images
    ensures HadTags(s.images, Apply(s, step).images, id)
  {
    hide FoundImage;
  }

  lemma OtherTakesTags(s: System, step: Step)
    requires Enabled(s, step) && !step.NextCall?
    ensures NoNewTags(s.images, Apply(s, step).images)
  {
  }

  ghost predicate NoNewTags(images: Store, after: Store) {
    forall id | id in after && after[id].tags != {} :: HadTags(images, after, id)
  }

  lemma FewerTags(images: Store, after: Store)
    requires OneHolderPerTag(images) && NoNewTags(images, after)
    ensures OneHolderPerTag(after)
  {
  }

  lemma RetagKeepsOne(images: Store, target: nat, system: string, tag: string)
    requires OneHolderPerTag(images) && NoHolder(images, system, tag) && InSystem(images, target, system)
    ensures OneHolderPerTag(Retag(images, target, tag))
  {
    var after := Retag(images, target, tag);
    forall a, b, t | a in after && b in after && t in after[a].tags && t in after[b].tags
      && after[a].system == after[b].system
      ensures a == b
    {
      if t == tag && after[a].system == system {
        assert a == target && b == target;
      } else {
        assert t in images[a].tags && t in images[b].tags;
      }
    }
  }

  lemma ImagesKept(s: System, step: Step)
    requires Inv(s) && Enabled(s, step)
    ensures OneRecordPerImage(Apply(s, step).images)
  {
    hide JobsOk, RecordOk, OneHolderPerTag, Settled, NoHolder, FoundImage, ProgressAhead;
    var images, after := s.images, Apply(s, step).images;
    if step.NextCall? && s.status.Publishing? {
      PublishKeepsOne(images, s.status.ident, s.status.response, s.status.system, step.now);
    } else {
      if step.TakeMessage? {
        assert Ended(s, 0);
      }
      assert forall id, imageId :: id in after && IsImage(after[id], after[id].system, imageId) ==>
        id in images && IsImage(images[id], after[id].system, imageId);
    }
  }

  lemma PublishKeepsOne(images: Store, ident: nat, response: Response, system: string, now: int)
    requires OneRecordPerImage(images) && NoImage(images, system, response.imageId) && InSystem(images, ident, system)
    ensures OneRecordPerImage(Publish(images, ident, response, now))
  {
    var after := Publish(images, ident, response, now);
    forall a, b, imageId | a in after && b in after && IsImage(after[a], after[a].system, imageId)
      && IsImage(after[b], after[a].system, imageId)
      ensures a == b
    {
      if a != ident && b != ident {
        assert IsImage(images[a], images[a].system, imageId) && IsImage(images[b], images[a].system, imageId);
      }
    }
  }

  /** The invariant holds in every reachable state, with lists in the requests or without. */
  lemma StepKeepsInv(s: System, step: Step)
    requires Inv(s) && Enabled(s, step)
    ensures Inv(Apply(s, step))
  {
    hide *;
    JobsKept(s, step);
    QueueKept(s, step);
    RecordsKept(s, step);
    StatusKept(s, step);
    HoldersKept(s, step);
    ImagesKept(s, step);
    Together(Apply(s, step));
  }

  lemma Together(s: System)
    requires JobsOk(s) && StatusOk(s) && OneHolderPerTag(s.images) && OneRecordPerImage(s.images)
    requires forall i :: 0 <= i < |s.queue| ==> Ended(s, i)
    requires forall id :: id in s.images ==> RecordOk(s, id)
    ensures Inv(s)
  {
  }

  /* Runs without lists in the requests. */

  predicate NoLists(step: Step) {
    step.BeginPull? ==> step.request.userACL == [] && step.request.groupACL == []
  }

  ghost predicate PullOk(s: System) {
    && (forall id :: id in s.images && InProgress(s.images[id].status) ==>
         s.images[id].userACL == [] && s.images[id].groupACL == [])
    && (s.pull.Removing? ==>
          && s.pull.request.userACL == [] && s.pull.request.groupACL == []
          && forall id :: id in s.images && InProgress(s.images[id].status) && Asks(s.pull.request, s.images[id]) ==>
               id in s.pull.victims)
  }

  /** The same pull, in progress before. */
  predicate Continues(before: Record, after: Record) {
    InProgress(before.status) && SameKey(before, after) && after.userACL == before.userACL
      && after.groupACL == before.groupACL
  }

  /** A step puts no record in progress except the one it inserts. */
  lemma ProgressKept(s: System, step: Step)
    requires Inv(s) && Enabled(s, step)
    ensures forall id | id in Apply(s, step).images && InProgress(Apply(s, step).images[id].status) ::
              || (step.InsertRecord? && id == s.next)
              || (id in s.images && Continues(s.images[id], Apply(s, step).images[id]))
  {
    hide *;
    forall id | id in Apply(s, step).images && InProgress(Apply(s, step).images[id].status)
      ensures || (step.InsertRecord? && id == s.next)
              || (id in s.images && Continues(s.images[id], Apply(s, step).images[id]))
    {
      if step.TakeMessage? {
        MessageContinues(s, step, id);
      } else if step.NextCall? {
        CallContinues(s, step, id);
      } else {
        OtherContinues(s, step, id);
      }
    }
  }

  lemma MessageContinues(s: System, step: Step, id: nat)
    requires Inv(s) && Enabled(s, step) && step.TakeMessage?
    requires id in Apply(s, step).images && InProgress(Apply(s, step).images[id].status)
    ensures id in s.images && Continues(s.images[id], Apply(s, step).images[id])
  {
    hide OneHolderPerTag, OneRecordPerImage, StatusOk, Settled;
    assert Ended(s, 0) && RecordOk(s, id);
    if IsProgress(s.queue[0], id) {
      assert ProgressAhead(s.queue, id);
    }
  }

  lemma CallContinues(s: System, step: Step, id: nat)
    requires Enabled(s, step) && step.NextCall?
    requires id in Apply(s, step).images && InProgress(Apply(s, step).images[id].status)
    requires Inv(s)
    ensures id in s.images && Continues(s.images[id], Apply(s, step).images[id])
  {
    hide OneHolderPerTag, OneRecordPerImage, NoImage, NoHolder, FoundImage, Settled, RecordOk, Ended, JobsOk;
  }

  lemma OtherContinues(s: System, step: Step, id: nat)
    requires Inv(s) && Enabled(s, step) && !step.TakeMessage? && !step.NextCall?
    requires id in Apply(s, step).images && InProgress(Apply(s, step).images[id].status)
    ensures || (step.InsertRecord? && id == s.next)
            || (id in s.images && Continues(s.images[id], Apply(s, step).images[id]))
  {
    hide OneHolderPerTag, OneRecordPerImage, StatusOk, Settled, Ended;
    if id in s.images {
      assert RecordOk(s, id);
    }
  }

  lemma StepKeepsPull(s: System, step: Step)
    requires Inv(s) && Enabled(s, step) && NoLists(step)
    requires PullOk(s) && OnePullPerKey(s.images)
    ensures PullOk(Apply(s, step)) && OnePullPerKey(Apply(s, step).images)
  {
    ProgressKept(s, step);
    hide Inv, SetState, Called, Taken, FoundImage;
    var t := Apply(s, step);
    if step.InsertRecord? {
      InsertKeepsPull(s, step);
    } else {
      PullStays(s, step);
    }
  }

  lemma InsertKeepsPull(s: System, step: Step)
    requires Enabled(s, step) && step.InsertRecord? && PullOk(s) && OnePullPerKey(s.images)
    ensures PullOk(Apply(s, step)) && OnePullPerKey(Apply(s, step).images)
  {
    var t := Apply(s, step);
    forall a, b | a in t.images && b in t.images && InProgress(t.images[a].status) && InProgress(t.images[b].status)
                  && SameKey(t.images[a], t.images[b])
      ensures a == b
    {
      assert a != s.next ==> t.images[a] == s.images[a];
      assert b != s.next ==> t.images[b] == s.images[b];
    }
  }

  lemma PullStays(s: System, step: Step)
    requires Enabled(s, step) && !step.InsertRecord? && NoLists(step) && PullOk(s) && OnePullPerKey(s.images)
    requires forall id | id in Apply(s, step).images && InProgress(Apply(s, step).images[id].status) ::
               id in s.images && Continues(s.images[id], Apply(s, step).images[id])
    ensures PullOk(Apply(s, step)) && OnePullPerKey(Apply(s, step).images)
  {
    hide SetState, Called, Taken, FoundImage;
    var t := Apply(s, step);
    if t.pull.Removing? {
      RemovingStays(s, step);
      forall id | id in t.images && InProgress(t.images[id].status) && Asks(t.pull.request, t.images[id])
        ensures id in t.pull.victims
      {
        assert Asks(t.pull.request, s.images[id]);
        if step.BeginPull? {
          assert Matches(step.request, s.images[id]);
        }
      }
    }
  }

  lemma RemovingStays(s: System, step: Step)
    requires Enabled(s, step) && Apply(s, step).pull.Removing?
    ensures step.BeginPull? || (s.pull.Removing? && Apply(s, step).pull.request == s.pull.request)
    ensures step.RemoveVictim? ==>
              step.id !in Apply(s, step).images && Apply(s, step).pull.victims == s.pull.victims - {step.id}
    ensures !step.BeginPull? && !step.RemoveVictim? ==> Apply(s, step).pull == s.pull
  {
  }

  /* The theorems about runs. */

  /** In every reachable state a tag has at most one holder in a system, and an image at most one record. */
  lemma {:induction false} RunsAreConsistent(s: System, steps: seq<Step>, t: System)
    requires Inv(s) && IsRun(s, steps, t)
    ensures Inv(t) && OneHolderPerTag(t.images) && OneRecordPerImage(t.images)
    decreases |steps|
  {
    hide Enabled, Apply;
    if steps != [] {
      StepKeepsInv(s, steps[0]);
      RunsAreConsistent(Apply(s, steps[0]), steps[1..], t);
    }
  }

  /** Without lists in the requests there is, besides, at most one pull in progress per key. */
  lemma {:induction false} RunsPullOnce(s: System, steps: seq<Step>, t: System)
    requires Inv(s) && PullOk(s) && OnePullPerKey(s.images) && IsRun(s, steps, t)
    requires forall i :: 0 <= i < |steps| ==> NoLists(steps[i])
    ensures PullOk(t) && OnePullPerKey(t.images)
    decreases |steps|
  {
    hide Enabled, Apply, Inv, PullOk, OnePullPerKey, NoLists;
    if steps != [] {
      assert NoLists(steps[0]);
      StepKeepsInv(s, steps[0]);
      StepKeepsPull(s, steps[0]);
      RunsPullOnce(Apply(s, steps[0]), steps[1..], t);
    }
  }

  lemma StartIsConsistent()
    ensures Inv(START) && PullOk(START) && OnePullPerKey(START.images)
  {
  }

  /** From the empty database. */
  lemma ReachableStates(steps: seq<Step>, t: System)
    requires IsRun(START, steps, t)
    ensures OneHolderPerTag(t.images) && OneRecordPerImage(t.images)
    ensures (forall i :: 0 <= i < |steps| ==> NoLists(steps[i])) ==> OnePullPerKey(t.images)
  {
    hide *;
    StartIsConsistent();
    RunsAreConsistent(START, steps, t);
    if forall i :: 0 <= i < |steps| ==> NoLists(steps[i]) {
      RunsPullOnce(START, steps, t);
    }
  }

  /* Without interleaving, the steps are the calls. */

  function CallsLeft(pc: StatusPc): nat {
    match pc
    case Idle => 0
    case DroppingLast(_) => 1
    case SettingAcls(_, _, _) => 2
    case Retagging(_, _, _, _) => 3
    case Untagging(_, _, _, _) => 4
    case DroppingPull(_, _, _, _, _) => 5
    case Publishing(_, _, _, _) => 5
    case TouchingImage(_, _, _, _, _) => 6
    case Looking(_, _, _, _) => 7
  }

  /** The remaining calls for a message, one after the other; only the first of them has a choice. */
  function RunOut(s: System, rec: Option<nat>, now: int): System
    requires rec.Some? ==> rec.value in s.images
    decreases CallsLeft(s.status)
  {
    if s.status.Idle? then s else RunOut(Called(s, rec, now), None, now)
  }

  /** Tagging, and what follows it. */
  lemma TagsRunOut(s: System, now: int)
    requires s.status.Untagging?
    ensures var images := AddTag(s.images, s.status.target, s.status.system, s.status.tag);
            var after := s.status.after;
            && RunOut(s, None, now).status == Idle
            && RunOut(s, None, now).images ==
               if after.Nothing? then images
                 else Drop(SetAcls(images, s.status.target, after.response, now), after.ident)
  {
    hide Untag, Retag, Drop, SetAcls;
    var s1 := Called(s, None, now);
    var s2 := Called(s1, None, now);
    assert RunOut(s, None, now) == RunOut(s1, None, now) == RunOut(s2, None, now);
    if s.status.after.ThenAcls? {
      var s3 := Called(s2, None, now);
      var s4 := Called(s3, None, now);
      assert RunOut(s2, None, now) == RunOut(s3, None, now) == RunOut(s4, None, now) == s4;
    }
  }

  lemma LookingRunsOut(s: System, rec: Option<nat>, now: int)
    requires s.status.Looking? && s.status.ident in s.images && (rec.Some? ==> rec.value in s.images)
    requires s.status.system == s.images[s.status.ident].system && s.status.tag == s.images[s.status.ident].pulltag
    ensures RunOut(s, rec, now).status == Idle
    ensures RunOut(s, rec, now).images == Handled(s.images, Result(s.status.ident, Some(s.status.response)), rec, now)
  {
    hide Untag, Retag, Drop, SetAcls, Publish, Touch;
    var s1 := Called(s, rec, now);
    assert RunOut(s, rec, now) == RunOut(s1, None, now);
    if s1.status.Untagging? {
      TagsRunOut(s1, now);
    } else {
      var s2 := Called(s1, None, now);
      assert RunOut(s1, None, now) == RunOut(s2, None, now);
      if s1.status.Publishing? {
        TagsRunOut(s2, now);
      } else {
        var s3 := Called(s2, None, now);
        assert RunOut(s2, None, now) == RunOut(s3, None, now);
        if s3.status.Untagging? {
          TagsRunOut(s3, now);
        }
      }
    }
  }

  /** Handling a message undisturbed is one call of the message handler. */
  lemma UndisturbedIsHandled(s: System, rec: Option<nat>, now: int)
    requires s.status.Idle? && s.queue != [] && FoundFor(s.images, s.queue[0], rec)
    ensures rec.Some? ==> rec.value in s.images
    ensures RunOut(Taken(s), rec, now).status == Idle
    ensures RunOut(Taken(s), rec, now).images == Handled(s.images, s.queue[0], rec, now)
  {
    if rec.Some? {
      FoundIsThere(s.images, s.queue[0], rec);
    }
    hide RunOut, Completed, AclsUpdated, FoundFor, SetState;
    var t := Taken(s);
    if t.status.Looking? {
      LookingRunsOut(t, rec, now);
    } else {
      NothingToRun(t, rec, now);
      MissingRecord(s.images, s.queue[0], rec, now);
    }
  }

  lemma NothingToRun(s: System, rec: Option<nat>, now: int)
    requires s.status.Idle? && (rec.Some? ==> rec.value in s.images)
    ensures RunOut(s, rec, now) == s
  {
  }

  lemma MissingRecord(images: Store, m: Message, rec: Option<nat>, now: int)
    requires rec.Some? ==> rec.value in images
    ensures m.Result? && (m.response.None? || m.ident !in images) ==> Handled(images, m, rec, now) == images
  {
  }

  lemma FoundIsThere(images: Store, m: Message, rec: Option<nat>)
    requires FoundFor(images, m, rec) && rec.Some?
    ensures rec.value in images
  {
  }

  /* A whole pull is a run. */

  lemma {:induction false} RunGrows(s: System, steps: seq<Step>, t: System, step: Step)
    requires IsRun(s, steps, t) && Enabled(t, step)
    ensures IsRun(s, steps + [step], Apply(t, step))
    decreases |steps|
  {
    hide Enabled, Apply;
    if steps == [] {
      assert [] + [step] == [step] && [step][1..] == [];
    } else {
      assert (steps + [step])[1..] == steps[1..] + [step];
      RunGrows(Apply(s, steps[0]), steps[1..], t, step);
    }
  }

  /** One more report, taken at once. */
  lemma ReportAndTake(steps: seq<Step>, t: System, id: nat, status: Status, beat: int)
    returns (more: seq<Step>, u: System)
    requires IsRun(START, steps, t) && Reported(status) && id in t.working && t.working[id] <= Rank(status)
    requires t.queue == [] && t.status.Idle?
    ensures IsRun(START, more, u) && Report(id, status, beat) in more && forall x :: x in steps ==> x in more
    ensures u == t.(working := t.working[id := Rank(status)], images := SetState(t.images, id, status, Some(beat)))
  {
    hide IsRun, SetState;
    var report := Report(id, status, beat);
    RunGrows(START, steps, t, report);
    var v := Apply(t, report);
    assert v.queue == [State(id, status, Some(beat))];
    RunGrows(START, steps + [report], v, TakeMessage);
    more, u := steps + [report] + [TakeMessage], Apply(v, TakeMessage);
  }

  /** A first pull of any image, with every status reported and PULLING more than once, ends with its tag served. */
  lemma PullCompletes(q: Request, response: Response, now: int) returns (steps: seq<Step>, t: System)
    requires !response.metaOnly
    ensures IsRun(START, steps, t) && Served(t.images, q.system, response.imageId, q.pulltag)
    ensures Report(0, Pulling, now) in steps
    ensures Report(0, Pulling, now + 1) in steps && Report(0, Transfer, now) in steps
  {
    hide IsRun, Publish, Untag, Retag;
    steps, t := PullBegins(q, now);
    steps, t := ReportAndTake(steps, t, 0, Pulling, now);
    steps, t := ReportAndTake(steps, t, 0, Pulling, now + 1);
    steps, t := ReportAndTake(steps, t, 0, Examination, now);
    steps, t := ReportAndTake(steps, t, 0, Conversion, now);
    steps, t := ReportAndTake(steps, t, 0, Transfer, now);
    steps, t := PullEnds(steps, t, q, response, now);
  }

  lemma PullBegins(q: Request, now: int) returns (steps: seq<Step>, t: System)
    ensures IsRun(START, steps, t) && t.queue == [] && t.status.Idle? && t.working == map[0 := 0]
    ensures t.images.Keys == {0} && Asks(q, t.images[0]) && !t.images[0].status.Ready?
  {
    var s1 := Apply(START, BeginPull(q));
    assert Victims(START.images, q) == {};
    var s2 := Apply(s1, InsertRecord);
    var s3 := Apply(s2, MarkPending);
    var s4 := Apply(s3, StartJob);
    t := Apply(s4, FinishPull(now));
    steps := [BeginPull(q)];
    assert IsRun(START, [], START);
    RunGrows(START, [], START, BeginPull(q));
    RunGrows(START, steps, s1, InsertRecord);
    RunGrows(START, steps + [InsertRecord], s2, MarkPending);
    RunGrows(START, steps + [InsertRecord] + [MarkPending], s3, StartJob);
    RunGrows(START, steps + [InsertRecord] + [MarkPending] + [StartJob], s4, FinishPull(now));
    steps := steps + [InsertRecord] + [MarkPending] + [StartJob] + [FinishPull(now)];
  }

  lemma PullEnds(steps: seq<Step>, t: System, q: Request, response: Response, now: int)
    returns (more: seq<Step>, u: System)
    requires IsRun(START, steps, t) && t.queue == [] && t.status.Idle? && t.working == map[0 := 4]
    requires t.images.Keys == {0} && Asks(q, t.images[0]) && !t.images[0].status.Ready? && !response.metaOnly
    ensures IsRun(START, more, u) && Served(u.images, q.system, response.imageId, q.pulltag)
    ensures forall x :: x in steps ==> x in more
  {
    hide IsRun;
    var ready := ReportReady(0, response);
    var call := NextCall(None, now);
    RunGrows(START, steps, t, ready);
    var s1 := Apply(t, ready);
    assert s1.queue == [Result(0, Some(response))];
    RunGrows(START, steps + [ready], s1, TakeMessage);
    var s2 := Apply(s1, TakeMessage);
    assert FoundImage(s2.images, s2.status.system, response.imageId, None);
    RunGrows(START, steps + [ready] + [TakeMessage], s2, call);
    var s3 := Apply(s2, call);
    RunGrows(START, steps + [ready] + [TakeMessage] + [call], s3, call);
    var s4 := Apply(s3, call);
    RunGrows(START, steps + [ready] + [TakeMessage] + [call] + [call], s4, call);
    var s5 := Apply(s4, call);
    RunGrows(START, steps + [ready] + [TakeMessage] + [call] + [call] + [call], s5, call);
    more, u := steps + [ready] + [TakeMessage] + [call] + [call] + [call] + [call], Apply(s5, call);
    assert 0 in u.images && IsImage(u.images[0], q.system, response.imageId) && q.pulltag in u.images[0].tags;
  }
}
