/** The calls of the image manager, each run to its end (imagemngr.py). */
module ImageManager {
  import opened Wrappers
  import opened ImageStore

  // `State` carries a worker's status; `Result` is the READY message, with what the pull produced.
  datatype Message =
    | State(ident: nat, status: Status, heartbeat: Option<int>)
    | Result(ident: nat, response: Option<Response>)

  datatype Session = Session(uid: nat, gid: nat)

  /** `_make_acl` on a list that is not empty; an empty one stays so. */
  function MakeAcl(acl: seq<nat>, id: nat): seq<nat> {
    if acl == [] || id in acl then acl else acl + [id]
  }

  /** A list that names somebody also names the caller, and nobody else is added. */
  lemma MakeAclAdds(acl: seq<nat>, id: nat)
    ensures MakeAcl([], id) == []
    ensures acl != [] ==> forall x :: x in MakeAcl(acl, id) <==> x in acl || x == id
    ensures acl <= MakeAcl(acl, id) && |MakeAcl(acl, id)| == |acl| + if acl == [] || id in acl then 0 else 1
  {
  }

  /** What a message does to the records; `rec` is the image found for its response. */
  function Handled(images: Store, m: Message, rec: Option<nat>, now: int): Store
    requires rec.Some? ==> rec.value in images
  {
    match m
    case State(ident, status, heartbeat) => SetState(images, ident, status, heartbeat)
    case Result(ident, response) =>
      if response.None? then images
      else if response.value.metaOnly then AclsUpdated(images, ident, response.value, rec, now)
      else Completed(images, ident, response.value, rec, now)
  }

  /** `rec` is the image that the handling of `m` looks up. */
  ghost predicate FoundFor(images: Store, m: Message, rec: Option<nat>) {
    if m.Result? && m.response.Some? && m.ident in images
    then FoundImage(images, images[m.ident].system, m.response.value.imageId, rec)
    else rec.None?
  }

  /** `update_states` removes what has failed and may be pulled again. */
  predicate Stale(r: Record, timeout: int, now: int) {
    r.status.Failure? && r.lastPull.Some? && now > timeout + r.lastPull.value
  }

  function Swept(images: Store, timeout: int, now: int): Store {
    map k | k in images && !Stale(images[k], timeout, now) :: images[k]
  }

  class ImageMngr {
    const timeout: int
    var images: Store
    // Larger than every id that was handed out.
    var next: nat
    // The jobs handed to the workers, in order.
    var jobs: seq<(nat, Request)>

    ghost predicate Valid()
      reads this
    {
      forall id :: id in images ==> id < next
    }

    /** The first record that is the image, in whatever order the database keeps them. */
    method FindImage(system: string, imageId: string) returns (rec: Option<nat>)
      ensures FoundImage(images, system, imageId, rec)
    {
      var found := set id | id in images && IsImage(images[id], system, imageId);
      if found == {} {
        assert forall id :: id in images && IsImage(images[id], system, imageId) ==> id in found;
        return None;
      }
      var id :| id in found;
      return Some(id);
    }

    /** status_thread, for one message: a status goes to its record, SUCCESS as READY, with its heartbeat if there is
        one; a result completes the pull, or only updates the lists. */
    method HandleMessage(m: Message, now: int) returns (ghost rec: Option<nat>)
      requires Valid()
      modifies this`images
      ensures Valid() && FoundFor(old(images), m, rec)
      ensures images == Handled(old(images), m, rec, now)
      ensures m.State? ==>
                && images.Keys == old(images).Keys
                && forall id :: id in images ==>
                     images[id] ==
                       if id != m.ident then old(images)[id]
                       else if m.heartbeat.None? then
                         old(images)[id].(status := if m.status.Success? then Ready else m.status)
                       else
                         old(images)[id].(status := if m.status.Success? then Ready else m.status,
                                          heartbeat := m.heartbeat)
      ensures m.Result? && (m.response.None? || m.ident !in old(images)) ==> images == old(images)
    {
      rec := None;
      match m {
        case State(ident, status, heartbeat) =>
          images := SetState(images, ident, status, heartbeat);
        case Result(ident, response) =>
          if response.Some? {
            if response.value.metaOnly {
              rec := UpdateAcls(ident, response.value, now);
            } else {
              rec := CompletePull(ident, response.value, now);
            }
          }
      }
    }

    /** add_tag */
    method AddTagTo(ident: nat, system: string, tag: string)
      requires Valid()
      modifies this`images
      ensures Valid() && images == AddTag(old(images), ident, system, tag)
      ensures OneHolderPerTag(old(images)) && (ident in images ==> images[ident].system == system) ==>
                OneHolderPerTag(images)
    {
      images := Untag(images, system, tag);
      images := Retag(images, ident, tag);
    }

    /** complete_pull */
    method CompletePull(ident: nat, response: Response, now: int) returns (ghost found: Option<nat>)
      requires Valid()
      modifies this`images
      ensures Valid() && FoundFor(old(images), Result(ident, Some(response)), found)
      ensures images == Completed(old(images), ident, response, found, now)
    {
      if ident !in images { return None; }
      var pullrec := images[ident];
      var rec := FindImage(pullrec.system, response.imageId);
      if rec.Some? {
        var tags := images[rec.value].tags;
        images := Touch(images, rec.value, now);
        images := Drop(images, ident);
        if response.tag.None? || response.tag.value !in tags {
          AddTagTo(rec.value, pullrec.system, pullrec.pulltag);
        }
      } else {
        images := Publish(images, ident, response, now);
        AddTagTo(ident, pullrec.system, pullrec.pulltag);
      }
      found := rec;
    }

    /** update_acls */
    method UpdateAcls(ident: nat, response: Response, now: int) returns (ghost found: Option<nat>)
      requires Valid()
      modifies this`images
      ensures Valid() && FoundFor(old(images), Result(ident, Some(response)), found)
      ensures images == AclsUpdated(old(images), ident, response, found, now)
    {
      if ident !in images { return None; }
      var pullrec := images[ident];
      var rec := FindImage(pullrec.system, response.imageId);
      if rec.None? {
        images := Publish(images, ident, response, now);
        AddTagTo(ident, pullrec.system, pullrec.pulltag);
      } else {
        AddTagTo(rec.value, pullrec.system, pullrec.pulltag);
        images := SetAcls(images, rec.value, response, now);
        images := Drop(images, ident);
      }
      found := rec;
    }

    /** update_states removes the failed records whose time is over. */
    method UpdateStates(now: int)
      requires Valid()
      modifies this`images
      ensures Valid() && images == Swept(old(images), timeout, now)
      ensures forall id :: id in images ==> id in old(images) && images[id] == old(images)[id]
      ensures forall id | id in old(images) ::
                var r := old(images)[id];
                id !in images <==> r.status.Failure? && r.lastPull.Some? && now - r.lastPull.value > timeout
    {
      ghost var start := images;
      var failed := set id | id in images && images[id].status.Failure?;
      while failed != {}
        invariant failed <= start.Keys && images.Keys <= start.Keys
        invariant forall id :: id in images ==> images[id] == start[id]
        invariant forall id :: id in failed ==> id in images && images[id].status.Failure?
        invariant forall id :: id in start && (id in failed || !Stale(start[id], timeout, now)) ==> id in images
        invariant forall id :: id in images && id !in failed ==> !Stale(images[id], timeout, now)
        decreases |failed|
      {
        var id :| id in failed;
        var rec := images[id];
        if rec.lastPull.Some? && now > timeout + rec.lastPull.value {
          images := Drop(images, id);
        }
        failed := failed - {id};
      }
    }

    /** new_pull_record */
    method NewPullRecord(q: Request) returns (ident: nat)
      requires Valid()
      modifies this`images, this`next
      ensures Valid() && ident == old(next) && next == ident + 1
      ensures images == PullCreated(old(images), q, ident)
    {
      ghost var start := images;
      var found: set<nat> := set id | id in images && Matches(q, images[id]);
      while |found| > 0
        invariant Valid() && next == old(next)
        invariant images.Keys <= start.Keys && forall id :: id in images ==> images[id] == start[id]
        invariant forall id :: id in found ==> id in images && Matches(q, images[id])
        invariant forall id :: id in start && (id in found || id !in Victims(start, q)) ==> id in images
        invariant forall id :: id in images && id !in found ==> id !in Victims(start, q)
        decreases |found|
      {
        var id: nat :| id in found;
        if !images[id].status.Ready? {
          images := Drop(images, id);
        }
        found := found - {id};
      }
      ident := next;
      next := next + 1;
      images := images[ident := NewRecord(q)];
    }

    /** The record a pull goes by. */
    method ChooseRecord(q: Request) returns (rec: Option<nat>)
      ensures Chosen(images, q, rec)
    {
      rec := None;
      var holders := set id | id in images && Holds(q, images[id]);
      if holders != {} {
        var id :| id in holders;
        rec := Some(id);
      }
      var unfinished := set id | id in images && Unfinished(q, images[id]);
      if unfinished != {} {
        var id :| id in unfinished;
        rec := Some(id);
      }
      assert forall id :: id in images && Holds(q, images[id]) ==> id in holders;
      assert forall id :: id in images && Unfinished(q, images[id]) ==> id in unfinished;
    }

    /** pull: the id of the record the caller gets, and whether it is a new one. `swept` is what is left after stale
        failures are removed, and `rec` the record the pull goes by. */
    method Pull(session: Session, image: Request, now: int)
      returns (ident: Option<nat>, pulled: bool, ghost q: Request, ghost swept: Store, ghost rec: Option<nat>)
      requires Valid()
      modifies this
      ensures Valid()
      ensures q == image.(userACL := MakeAcl(image.userACL, session.uid),
                groupACL := MakeAcl(image.groupACL, session.gid))
      ensures swept == Swept(old(images), timeout, now) && Chosen(swept, q, rec)
      // The record it goes by.
      ensures (forall id | id in swept ::
                 var r := swept[id];
                 r.system == image.system && r.itype == image.itype && r.pulltag == image.pulltag ==>
                   r.status.Ready? || r.status.Success?)
              <==> rec.None? || swept[rec.value].status.Ready?
      ensures rec.Some? ==>
                && rec.value in swept
                && var r := swept[rec.value];
                && r.system == image.system && r.itype == image.itype
                && if r.status.Ready? then image.pulltag in r.tags
                   else r.pulltag == image.pulltag && !r.status.Success?
      ensures rec.None? ==>
                forall id | id in swept ::
                  var r := swept[id];
                  !(r.status.Ready? && r.system == image.system && r.itype == image.itype && image.pulltag in r.tags)
      // Whether a pull starts.
      ensures pulled <==>
                || rec.None?
                || var r := swept[rec.value];
                   || r.status.Expired?
                   || r.lastPull.None?
                   || ((r.status.Ready? || r.status.Failure?) && now - r.lastPull.value > timeout)
                   || (!r.status.Ready? && r.heartbeat.Some? && now - r.heartbeat.value > 3600)
                   || (r.status.Ready? && now - r.lastPull.value >= 10
                       && (|q.userACL| != |r.userACL| || |q.groupACL| != |r.groupACL|
                           || (exists id :: id in q.userACL && id !in r.userACL)
                           || exists id :: id in q.groupACL && id !in r.groupACL))
      // What it does.
      ensures !pulled ==> images == swept && jobs == old(jobs) && ident == rec
      ensures pulled ==> ident == Some(old(next)) && jobs == old(jobs) + [(old(next), q)] && next == old(next) + 1
      ensures pulled ==>
                && old(next) in images
                && images[old(next)] == Record(q.system, q.itype, q.pulltag, Pending, None, {}, q.userACL, q.groupACL,
                                               None, Some(now), None)
      ensures pulled ==> forall id :: id in images && id != old(next) ==> id in swept && images[id] == swept[id]
      ensures pulled ==>
                forall id | id in swept ::
                  var r := swept[id];
                  id !in images <==>
                    && !r.status.Ready? && r.system == q.system && r.itype == q.itype && r.pulltag == q.pulltag
                    && r.userACL == q.userACL && r.groupACL == q.groupACL
    {
      UpdateStates(now);
      swept := images;
      q := image.(userACL := MakeAcl(image.userACL, session.uid), groupACL := MakeAcl(image.groupACL, session.gid));
      var request := image.(userACL := MakeAcl(image.userACL, session.uid),
        groupACL := MakeAcl(image.groupACL, session.gid));
      ident := ChooseRecord(request);
      rec := ident;
      pulled := WouldPull(request, if ident.Some? then Some(images[ident.value]) else None, timeout, now);
      PullDecision(request, if ident.Some? then Some(images[ident.value]) else None, timeout, now);
      if pulled {
        var id := NewPullRecord(request);
        images := SetState(images, id, Pending, None);
        jobs := jobs + [(id, request)];
        images := Touch(images, id, now);
        ident := Some(id);
      }
    }
  }
}
