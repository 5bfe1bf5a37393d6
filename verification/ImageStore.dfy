/** The image records of the gateway and the single changes made to them (imagemngr.py). */
module ImageStore {
  import opened Wrappers

  datatype Status =
    | Init | Pending | Pulling | Examination | Conversion | Transfer
    | Ready | Failure | Expiring | Expired | Success

  /** A pull that has not come to an end. */
  predicate InProgress(s: Status) {
    s.Init? || s.Pending? || Reported(s)
  }

  /** The statuses a worker reports while it pulls. */
  predicate Reported(s: Status) {
    s.Pulling? || s.Examination? || s.Conversion? || s.Transfer?
  }

  datatype Record = Record(
    system: string, itype: string, pulltag: string, status: Status, imageId: Option<string>, tags: set<string>,
    userACL: seq<nat>, groupACL: seq<nat>, private: Option<bool>, lastPull: Option<int>, heartbeat: Option<int>)

  // Records by database id.
  type Store = map<nat, Record>

  datatype Request = Request(system: string, itype: string, pulltag: string, userACL: seq<nat>, groupACL: seq<nat>)

  // What a worker reports about a finished pull; `metaOnly` when the image itself was already in place.
  datatype Response = Response(
    imageId: string, tag: Option<string>, private: bool, userACL: seq<nat>, groupACL: seq<nat>, metaOnly: bool)

  predicate SameKey(a: Record, b: Record) {
    a.system == b.system && a.itype == b.itype && a.pulltag == b.pulltag
  }

  predicate Asks(q: Request, r: Record) {
    r.system == q.system && r.itype == q.itype && r.pulltag == q.pulltag
  }

  /** The query of `new_pull_record`: the lists of the request are part of it. */
  predicate Matches(q: Request, r: Record) {
    Asks(q, r) && r.userACL == q.userACL && r.groupACL == q.groupACL
  }

  /* Single database calls. */

  /** update_mongo_state */
  function SetState(images: Store, id: nat, status: Status, heartbeat: Option<int>): Store {
    if id !in images then images
    else
      var r := images[id];
      images[id := r.(status := if status.Success? then Ready else status,
                      heartbeat := if heartbeat.Some? then heartbeat else r.heartbeat)]
  }

  function Touch(images: Store, id: nat, now: int): Store {
    if id in images then images[id := images[id].(lastPull := Some(now))] else images
  }

  /** A public image loses its lists, whatever the response says. */
  function WithAcls(r: Record, response: Response, now: int): Record {
    r.(private := Some(response.private), lastPull := Some(now),
       userACL := if response.private then response.userACL else [],
       groupACL := if response.private then response.groupACL else [])
  }

  function SetAcls(images: Store, id: nat, response: Response, now: int): Store {
    if id in images then images[id := WithAcls(images[id], response, now)] else images
  }

  /** The record becomes the image. */
  function Publish(images: Store, id: nat, response: Response, now: int): Store {
    if id in images then
      images[id := WithAcls(images[id], response, now).(status := Ready, imageId := Some(response.imageId))]
    else images
  }

  function Untag(images: Store, system: string, tag: string): Store {
    map id | id in images ::
      if images[id].system == system then images[id].(tags := images[id].tags - {tag}) else images[id]
  }

  function Retag(images: Store, id: nat, tag: string): Store {
    if id in images then images[id := images[id].(tags := images[id].tags + {tag})] else images
  }

  function Drop(images: Store, id: nat): Store {
    map k | k in images && k != id :: images[k]
  }

  function NewRecord(q: Request): Record {
    Record(q.system, q.itype, q.pulltag, Init, None, {}, q.userACL, q.groupACL, None, None, None)
  }

  /* What the records are expected to satisfy. */

  ghost predicate OnePullPerKey(images: Store) {
    forall a, b | a in images && b in images && InProgress(images[a].status) && InProgress(images[b].status) ::
      SameKey(images[a], images[b]) ==> a == b
  }

  ghost predicate OneHolderPerTag(images: Store) {
    forall a, b, tag | a in images && b in images && tag in images[a].tags && tag in images[b].tags ::
      images[a].system == images[b].system ==> a == b
  }

  predicate IsImage(r: Record, system: string, imageId: string) {
    r.status.Ready? && r.system == system && r.imageId == Some(imageId)
  }

  ghost predicate OneRecordPerImage(images: Store) {
    forall a, b, imageId | a in images && b in images && IsImage(images[a], images[a].system, imageId) ::
      IsImage(images[b], images[a].system, imageId) ==> a == b
  }

  ghost predicate NoHolder(images: Store, system: string, tag: string) {
    forall id :: id in images && images[id].system == system ==> tag !in images[id].tags
  }

  ghost predicate NoImage(images: Store, system: string, imageId: string) {
    forall id :: id in images ==> !IsImage(images[id], system, imageId)
  }

  /** What `find_one` may answer for the image of a response. */
  ghost predicate FoundImage(images: Store, system: string, imageId: string, rec: Option<nat>) {
    if rec.Some? then rec.value in images && IsImage(images[rec.value], system, imageId)
    else NoImage(images, system, imageId)
  }

  /* Whole operations, undisturbed. */

  function AddTag(images: Store, id: nat, system: string, tag: string): Store {
    Retag(Untag(images, system, tag), id, tag)
  }

  /** `rec` is the image that was found for the response. */
  function Completed(images: Store, ident: nat, response: Response, rec: Option<nat>, now: int): Store
    requires rec.Some? ==> rec.value in images
  {
    if ident !in images then images
    else
      var system, tag := images[ident].system, images[ident].pulltag;
      if rec.None? then AddTag(Publish(images, ident, response, now), ident, system, tag)
      else
        var kept := Drop(Touch(images, rec.value, now), ident);
        if response.tag.Some? && response.tag.value in images[rec.value].tags then kept
        else AddTag(kept, rec.value, system, tag)
  }

  function AclsUpdated(images: Store, ident: nat, response: Response, rec: Option<nat>, now: int): Store {
    if ident !in images then images
    else
      var system, tag := images[ident].system, images[ident].pulltag;
      if rec.None? then AddTag(Publish(images, ident, response, now), ident, system, tag)
      else Drop(SetAcls(AddTag(images, rec.value, system, tag), rec.value, response, now), ident)
  }

  /** A record after the tag was moved to another, or to it. */
  function Moved(r: Record, system: string, tag: string, here: bool): Record {
    if here then r.(tags := r.tags + {tag})
    else if r.system == system then r.(tags := r.tags - {tag})
    else r
  }

  /**
   * What completing a pull changes. Without an image, the pull record becomes it, with the response's lists if it is
   * private. With one, the pull record goes, and the image is marked as pulled now. The tag moves to the image from all
   * others of the system, unless the image holds the tag that the response names. Nothing else changes.
   */
  lemma CompletionEffect(images: Store, ident: nat, response: Response, rec: Option<nat>, now: int)
    requires ident in images && FoundImage(images, images[ident].system, response.imageId, rec)
    ensures var p, after := images[ident], Completed(images, ident, response, rec, now);
            var target := if rec.Some? then rec.value else ident;
            var moves := rec.None? || response.tag.None? || response.tag.value !in images[target].tags;
            && after.Keys == images.Keys - (if rec.Some? then {ident} else {})
            && forall id :: id in after ==>
                 var r := if moves then Moved(images[id], p.system, p.pulltag, id == target) else images[id];
                 after[id] ==
                   if id != target then r
                   else if rec.Some? then r.(lastPull := Some(now))
                   else r.(status := Ready, imageId := Some(response.imageId), lastPull := Some(now),
                           private := Some(response.private),
                           userACL := if response.private then response.userACL else [],
                           groupACL := if response.private then response.groupACL else [])
  {
  }

  /** What an update of the lists changes: as above, but the tag always moves and the image gets the new lists. */
  lemma AclUpdateEffect(images: Store, ident: nat, response: Response, rec: Option<nat>, now: int)
    requires ident in images && FoundImage(images, images[ident].system, response.imageId, rec)
    ensures var p, after := images[ident], AclsUpdated(images, ident, response, rec, now);
            var target := if rec.Some? then rec.value else ident;
            && after.Keys == images.Keys - (if rec.Some? then {ident} else {})
            && forall id :: id in after ==>
                 var r := Moved(images[id], p.system, p.pulltag, id == target);
                 after[id] ==
                   if id != target then r
                   else
                     r.(status := Ready, imageId := Some(response.imageId), lastPull := Some(now),
                        private := Some(response.private),
                        userACL := if response.private then response.userACL else [],
                        groupACL := if response.private then response.groupACL else [])
  {
  }

  /** Some image with this id holds the tag. */
  ghost predicate Served(images: Store, system: string, imageId: string, tag: string) {
    exists id :: id in images && IsImage(images[id], system, imageId) && tag in images[id].tags
  }

  /**
   * A completed pull leaves its tag on the image exactly when the pull record was not that image already, and
   * the response does not name another tag that the image holds.
   */
  lemma CompletionExact(images: Store, ident: nat, response: Response, rec: Option<nat>, now: int)
    requires ident in images && OneRecordPerImage(images)
    requires FoundImage(images, images[ident].system, response.imageId, rec)
    ensures var p := images[ident];
            Served(Completed(images, ident, response, rec, now), p.system, response.imageId, p.pulltag) <==>
            || rec.None?
            || (rec != Some(ident)
                && (response.tag.Some? && response.tag.value in images[rec.value].tags ==>
                     p.pulltag in images[rec.value].tags))
  {
    var p, after := images[ident], Completed(images, ident, response, rec, now);
    var target := if rec.Some? then rec.value else ident;
    if rec.Some? {
      forall id | id in after && IsImage(after[id], p.system, response.imageId) ensures id == rec.value && id != ident {
        assert IsImage(images[id], p.system, response.imageId);
      }
    }
    if target in after && p.pulltag in after[target].tags {
      assert IsImage(after[target], p.system, response.imageId);
    }
  }

  /** In particular for a pull that is not an image itself, when the response names no tag. */
  lemma CompletionServesTag(images: Store, ident: nat, response: Response, rec: Option<nat>, now: int)
    requires ident in images && OneRecordPerImage(images) && !images[ident].status.Ready? && response.tag.None?
    requires FoundImage(images, images[ident].system, response.imageId, rec)
    ensures Served(Completed(images, ident, response, rec, now), images[ident].system,
              response.imageId, images[ident].pulltag)
  {
    CompletionExact(images, ident, response, rec, now);
  }

  /** An update of the lists leaves the tag on the image, and on a private one both lists of the response; the record of
      the pull is gone unless it becomes the image. */
  lemma AclUpdateExact(images: Store, ident: nat, response: Response, rec: Option<nat>, now: int)
    requires ident in images && OneRecordPerImage(images)
    requires FoundImage(images, images[ident].system, response.imageId, rec)
    ensures var p := images[ident];
            Served(AclsUpdated(images, ident, response, rec, now), p.system, response.imageId, p.pulltag) <==>
              rec != Some(ident)
    ensures rec != Some(ident) ==>
              var target := if rec.Some? then rec.value else ident;
              var after := AclsUpdated(images, ident, response, rec, now);
              && target in after && after[target].private == Some(response.private)
              && after[target].userACL == (if response.private then response.userACL else [])
              && after[target].groupACL == (if response.private then response.groupACL else [])
    ensures rec.Some? ==> ident !in AclsUpdated(images, ident, response, rec, now)
  {
    var p, after := images[ident], AclsUpdated(images, ident, response, rec, now);
    var target := if rec.Some? then rec.value else ident;
    if rec.Some? {
      forall id | id in after && IsImage(after[id], p.system, response.imageId) ensures id == rec.value && id != ident {
        assert IsImage(images[id], p.system, response.imageId);
      }
    }
    if rec != Some(ident) {
      assert target in after && IsImage(after[target], p.system, response.imageId) && p.pulltag in after[target].tags;
    }
  }

  /* Creating a pull record. */

  /** The records that `new_pull_record` removes. */
  function Victims(images: Store, q: Request): set<nat> {
    set id | id in images && Matches(q, images[id]) && !images[id].status.Ready?
  }

  function PullCreated(images: Store, q: Request, id: nat): Store {
    (map k | k in images && k !in Victims(images, q) :: images[k])[id := NewRecord(q)]
  }

  ghost predicate OnlyInProgress(images: Store, q: Request, id: nat) {
    forall k :: k in images && Asks(q, images[k]) && InProgress(images[k].status) ==> k == id
  }

  /**
   * After a new pull record, it is the only pull in progress for its key exactly when every pull that was in
   * progress had the lists of the request.
   */
  lemma NewPullExact(images: Store, q: Request, id: nat)
    requires id !in images
    ensures OnlyInProgress(PullCreated(images, q, id), q, id) <==>
            forall k :: k in images && Asks(q, images[k]) && InProgress(images[k].status) ==> Matches(q, images[k])
  {
    var after := PullCreated(images, q, id);
    forall k | k in images && Asks(q, images[k]) && InProgress(images[k].status)
      ensures Matches(q, images[k]) <==> k !in after
    {
    }
    assert forall k :: k in after && k != id ==> k in images && after[k] == images[k];
  }

  /* Whether to pull. */

  const HEARTBEAT_LIMIT: int := 3600
  const RECENT: int := 10

  /** `_pullable`; `timeout` is the configured time between pulls. */
  function Pullable(rec: Option<Record>, timeout: int, now: int): bool {
    rec.None? || rec.value.status.Expired? || rec.value.lastPull.None?
    || ((rec.value.status.Ready? || rec.value.status.Failure?) && now > timeout + rec.value.lastPull.value)
    || (!rec.value.status.Ready? && rec.value.heartbeat.Some? && now - rec.value.heartbeat.value > HEARTBEAT_LIMIT)
  }

  /** `_compare_list`; a missing record compares as equal. */
  function SameList(a: seq<nat>, b: seq<nat>): bool {
    |a| == |b| && forall i :: 0 <= i < |a| ==> a[i] in b
  }

  function AclsSame(q: Request, rec: Option<Record>): bool {
    rec.None? || (SameList(q.userACL, rec.value.userACL) && SameList(q.groupACL, rec.value.groupACL))
  }

  predicate Unfinished(q: Request, r: Record) {
    Asks(q, r) && !r.status.Ready? && !r.status.Success?
  }

  predicate Holds(q: Request, r: Record) {
    r.status.Ready? && r.system == q.system && r.itype == q.itype && q.pulltag in r.tags
  }

  /** The record a pull goes by: an unfinished one if there is any, else the image that holds the tag. */
  ghost predicate Chosen(images: Store, q: Request, rec: Option<nat>) {
    if exists id :: id in images && Unfinished(q, images[id])
    then rec.Some? && rec.value in images && Unfinished(q, images[rec.value])
    else if exists id :: id in images && Holds(q, images[id])
    then rec.Some? && rec.value in images && Holds(q, images[rec.value])
    else rec.None?
  }

  /** The decision of `pull`: a finished record of which the lists have changed, or a pullable one. */
  function WouldPull(q: Request, rec: Option<Record>, timeout: int, now: int): bool {
    var inflight := rec.Some? && !rec.value.status.Ready?;
    var recent := rec.Some? && rec.value.status.Ready? && rec.value.lastPull.Some?
      && now - rec.value.lastPull.value < RECENT;
    (!recent && !inflight && !AclsSame(q, rec)) || Pullable(rec, timeout, now)
  }

  /**
   * When a request starts a pull: there is no record to go by; or it has expired, or was never pulled; or it is ready
   * or has failed, and its time is over; or it is unfinished, and its last sign of life is more than an hour old; or it
   * is ready, has not been pulled in the last ten seconds, and has other lists.
   */
  lemma PullDecision(q: Request, rec: Option<Record>, timeout: int, now: int)
    ensures WouldPull(q, rec, timeout, now) <==>
            || rec.None?
            || var r := rec.value;
               || r.status.Expired?
               || r.lastPull.None?
               || ((r.status.Ready? || r.status.Failure?) && now - r.lastPull.value > timeout)
               || (!r.status.Ready? && r.heartbeat.Some? && now - r.heartbeat.value > 3600)
               || (r.status.Ready? && now - r.lastPull.value >= 10
                   && (|q.userACL| != |r.userACL| || |q.groupACL| != |r.groupACL|
                       || (exists id :: id in q.userACL && id !in r.userACL)
                       || exists id :: id in q.groupACL && id !in r.groupACL))
  {
    if rec.Some? {
      ListsDiffer(q.userACL, rec.value.userACL);
      ListsDiffer(q.groupACL, rec.value.groupACL);
    }
  }

  lemma ListsDiffer(a: seq<nat>, b: seq<nat>)
    ensures SameList(a, b) <==> |a| == |b| && forall id :: id in a ==> id in b
  {
    assert (forall i :: 0 <= i < |a| ==> a[i] in b) ==> forall id :: id in a ==> id in b;
  }

  /** While a pull is in progress and has given a sign of life, another request for its key changes nothing. */
  lemma PullInFlightIsKept(images: Store, q: Request, rec: Option<nat>, timeout: int, now: int)
    requires Chosen(images, q, rec)
    requires exists id :: id in images && Unfinished(q, images[id])
    requires forall id :: id in images && Unfinished(q, images[id]) ==>
               && InProgress(images[id].status) && images[id].lastPull.Some?
               && (images[id].heartbeat.Some? ==> now - images[id].heartbeat.value <= HEARTBEAT_LIMIT)
    ensures rec.Some? && !WouldPull(q, Some(images[rec.value]), timeout, now)
  {
  }

  /** With lists in the requests, two pulls of one key can be in progress: the second does not see the first. */
  lemma AclPullsOverlap()
    ensures var first := Request("s", "docker", "t", [], []);
            var second := first.(userACL := [5]);
            var stuck := NewRecord(first).(status := Transfer, lastPull := Some(0), heartbeat := Some(0));
            var images: Store := map[0 := stuck];
            && Chosen(images, second, Some(0)) && WouldPull(second, Some(stuck), 300, 4000)
            && !OnePullPerKey(PullCreated(images, second, 1))
  {
    var first := Request("s", "docker", "t", [], []);
    var second := first.(userACL := [5]);
    var stuck := NewRecord(first).(status := Transfer, lastPull := Some(0), heartbeat := Some(0));
    var images: Store := map[0 := stuck];
    assert 0 in images && Unfinished(second, images[0]);
    var after := PullCreated(images, second, 1);
    assert |stuck.userACL| != |second.userACL|;
    assert 0 in after && 1 in after && after[0] == stuck && after[1] == NewRecord(second);
    assert SameKey(after[0], after[1]);
  }
}
