/** The completion that joins the sections of a large job: it counts sections down, remembers
    a failure, and reports to the user when the last section is done. */
module EcJoin {

  datatype Status = Success | Fail

  /** A section of the job is over: it completed with a status, or could not be posted. */
  datatype Event = Completed(status: Status) | PostFailed(error: int)

  function Failed(e: Event): bool {
    match e
    case Completed(status) => status == Fail
    case PostFailed(error) => true
  }

  /** The user's completion, and how often its callback has run. */
  class UserComp {
    var status: Status
    var done: nat

    constructor ()
      ensures status == Success && done == 0
    {
      status := Success;
      done := 0;
    }
  }

  /** The pool counts how often each completion has been put back. */
  class MultiComp {
    var counter: int
    var orig: UserComp?
    var puts: nat
    const user: UserComp
    const sections: nat
    ghost var events: seq<Event>

    ghost predicate Valid()
      reads this, user
    {
      && |events| <= sections && 0 < sections
      && counter == sections - |events|
      && orig == (if |events| < sections then user else null)
      && user.done == (if |events| == sections then 1 else 0)
      && puts == (if |events| == sections then 1 else 0)
      && (user.status == Fail <==> exists k :: 0 <= k < |events| && Failed(events[k]))
    }

    /** mlx5_get_ec_multi_comp: the user's status starts as success. */
    constructor (user: UserComp, numCalcs: nat)
      requires numCalcs > 0 && user.done == 0
      modifies user
      ensures Valid() && this.user == user && sections == numCalcs && events == [] && user.done == 0
    {
      this.user := user;
      sections := numCalcs;
      counter := numCalcs;
      orig := user;
      puts := 0;
      events := [];
      new;
      user.status := Success;
    }

    method SetStatusCheckDone(status: int, ghost e: Event)
      requires Valid() && |events| < sections && (status != 0 <==> Failed(e))
      modifies this`counter, this`orig, this`puts, this`events, user
      ensures Valid() && events == old(events) + [e]
      ensures user.done == if |events| == sections then 1 else 0
    {
      var ecComp := orig;
      if status != 0 && ecComp != null && ecComp.status == Success {
        ecComp.status := Fail;
      }
      counter := counter - 1;
      events := events + [e];
      if counter == 0 {
        puts := puts + 1;
        orig := null;
        if ecComp != null {
          ecComp.done := ecComp.done + 1;
        }
      }
      assert forall k :: 0 <= k < |old(events)| ==> events[k] == old(events)[k];
      assert events[|events| - 1] == e;
    }

    /** A section reports, whatever the order in which sections end or fail to be posted. */
    method SectionOver(e: Event)
      requires Valid() && |events| < sections && (e.PostFailed? ==> e.error != 0)
      modifies this`counter, this`orig, this`puts, this`events, user
      ensures Valid() && events == old(events) + [e]
      ensures user.done == (if |events| == sections then 1 else 0) && puts == user.done
      ensures user.status == Fail <==>
              exists k :: 0 <= k < |events| && (events[k].PostFailed? || events[k].status == Fail)
    {
      match e
      case Completed(s) =>
        SetStatusCheckDone(if s == Fail then 1 else 0, e);
      case PostFailed(error) =>
        SetStatusCheckDone(error, e);
    }
  }

  /** Every interleaving of section completions and post failures of a job with as many events
      as it has sections fires the callback once, at the last event, with the right status. */
  method RunJob(user: UserComp, numCalcs: nat, events: seq<Event>) returns (doneAfter: seq<nat>, comp: MultiComp)
    requires 0 < numCalcs == |events| && user.done == 0
    requires forall k :: 0 <= k < |events| && events[k].PostFailed? ==> events[k].error != 0
    modifies user
    ensures |doneAfter| == |events|
    ensures forall k :: 0 <= k < |events| ==> doneAfter[k] == if k == |events| - 1 then 1 else 0
    ensures user.done == 1 && comp.puts == 1 && comp.orig == null
    ensures user.status == Fail <==>
            exists k :: 0 <= k < |events| && (events[k].PostFailed? || events[k].status == Fail)
  {
    comp := new MultiComp(user, numCalcs);
    doneAfter := [];
    var i := 0;
    while i < |events|
      invariant 0 <= i <= |events| && |doneAfter| == i
      invariant comp.Valid() && comp.user == user && comp.sections == numCalcs && comp.events == events[..i]
      invariant forall k :: 0 <= k < i ==> doneAfter[k] == if k == |events| - 1 then 1 else 0
      invariant fresh(comp)
    {
      comp.SectionOver(events[i]);
      doneAfter := doneAfter + [user.done];
      i := i + 1;
    }
    assert events[..i] == events;
  }
}
