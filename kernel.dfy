/**
 * Kernel services the driver calls but whose code is not part of this model.
 *
 * Their results enter the model as parameters (oracles); the calls themselves
 * are appended to a `Log`, so that the order of page pinning, page release,
 * transfer submission and completion notification can be stated exactly.
 */
module Kernel {

  /** Linux errno values used by the driver (returned negated). */
  const ENOMEM: int := 12
  const EFAULT: int := 14
  const EBUSY: int := 16
  const EINVAL: int := 22
  const EIOCBQUEUED: int := 529

  datatype Option<T> = None | Some(value: T)

  /** A value, or the negative errno the driver returns instead. */
  datatype Result<T> = Ok(value: T) | Err(code: int)

  /** A user page, as `get_user_pages_fast` hands it back. */
  type PageId = nat

  /** One scatter-gather entry: a page, a length and an offset in the page. */
  datatype Segment = Segment(page: PageId, length: nat, offset: nat)

  /** One call into a kernel service or into the transfer engine. */
  datatype Call =
    | GetUserPages(pinned: seq<PageId>)
    | SetPageDirty(page: PageId)
    | PutPage(page: PageId)
    | XferSubmit(write: bool, epAddr: int, sgl: seq<Segment>)
    | XferSubmitNowait(write: bool, epAddr: int, sgl: seq<Segment>)
    | XferCompletion(write: bool, epAddr: int, sgl: seq<Segment>)
    | KiComplete(res: int, res2: bv64)
    | KthreadWakeup(worker: nat)
    | EngineServicePoll(descNum: int)
    | CreateThread(task: nat)
    | StopThread(task: nat)

  /** The record of kernel calls made so far. */
  class Log {
    var calls: seq<Call>

    constructor ()
      ensures calls == []
    {
      calls := [];
    }
  }

  /** The pages released by `put_page`, in call order. */
  function PutPagesOf(calls: seq<Call>): (r: seq<PageId>)
    ensures |r| <= |calls|
  {
    if calls == [] then []
    else
      var last := calls[|calls| - 1];
      PutPagesOf(calls[..|calls| - 1]) + (if last.PutPage? then [last.page] else [])
  }

  /** The pages marked dirty, in call order. */
  function DirtiedPagesOf(calls: seq<Call>): (r: seq<PageId>)
    ensures |r| <= |calls|
  {
    if calls == [] then []
    else
      var last := calls[|calls| - 1];
      DirtiedPagesOf(calls[..|calls| - 1]) + (if last.SetPageDirty? then [last.page] else [])
  }

  /** The pages pinned by `get_user_pages_fast`, in call order. */
  function PinnedPagesOf(calls: seq<Call>): (r: seq<PageId>)
  {
    if calls == [] then []
    else
      var last := calls[|calls| - 1];
      PinnedPagesOf(calls[..|calls| - 1]) + (if last.GetUserPages? then last.pinned else [])
  }

  /** The transfers queued without waiting for them, in call order. */
  function NowaitSubmitsOf(calls: seq<Call>): (r: seq<Call>)
    ensures |r| <= |calls|
    ensures forall i :: 0 <= i < |r| ==> r[i].XferSubmitNowait?
  {
    if calls == [] then []
    else
      var last := calls[|calls| - 1];
      NowaitSubmitsOf(calls[..|calls| - 1]) + (if last.XferSubmitNowait? then [last] else [])
  }

  /** Calls that only pin, dirty or release pages. */
  predicate PageCallsOnly(calls: seq<Call>) {
    forall c :: c in calls ==> c.GetUserPages? || c.SetPageDirty? || c.PutPage?
  }

  /** Page calls queue no transfer. */
  lemma {:induction false} PageCallsSubmitNothing(calls: seq<Call>)
    requires PageCallsOnly(calls)
    ensures NowaitSubmitsOf(calls) == []
  {
    if calls != [] {
      assert calls[|calls| - 1] in calls;
      PageCallsSubmitNothing(calls[..|calls| - 1]);
    }
  }

  /** The released pages of a log distribute over appending to it. */
  lemma {:induction false} PutsAppend(a: seq<Call>, b: seq<Call>)
    ensures PutPagesOf(a + b) == PutPagesOf(a) + PutPagesOf(b)
  {
    if b != [] {
      assert (a + b)[..|a + b| - 1] == a + b[..|b| - 1];
      PutsAppend(a, b[..|b| - 1]);
    } else {
      assert a + b == a;
    }
  }

  /** The dirtied pages of a log distribute over appending to it. */
  lemma {:induction false} DirtiesAppend(a: seq<Call>, b: seq<Call>)
    ensures DirtiedPagesOf(a + b) == DirtiedPagesOf(a) + DirtiedPagesOf(b)
  {
    if b != [] {
      assert (a + b)[..|a + b| - 1] == a + b[..|b| - 1];
      DirtiesAppend(a, b[..|b| - 1]);
    } else {
      assert a + b == a;
    }
  }

  /** The pinned pages of a log distribute over appending to it. */
  lemma {:induction false} PinsAppend(a: seq<Call>, b: seq<Call>)
    ensures PinnedPagesOf(a + b) == PinnedPagesOf(a) + PinnedPagesOf(b)
  {
    if b != [] {
      assert (a + b)[..|a + b| - 1] == a + b[..|b| - 1];
      PinsAppend(a, b[..|b| - 1]);
    } else {
      assert a + b == a;
    }
  }

  /** The queued transfers of a log distribute over appending to it. */
  lemma {:induction false} SubmitsAppend(a: seq<Call>, b: seq<Call>)
    ensures NowaitSubmitsOf(a + b) == NowaitSubmitsOf(a) + NowaitSubmitsOf(b)
  {
    if b != [] {
      assert (a + b)[..|a + b| - 1] == a + b[..|b| - 1];
      SubmitsAppend(a, b[..|b| - 1]);
    } else {
      assert a + b == a;
    }
  }

  /** Each page view of a log distributes over appending to it. */
  lemma ViewsAppend(a: seq<Call>, b: seq<Call>)
    ensures PutPagesOf(a + b) == PutPagesOf(a) + PutPagesOf(b)
    ensures DirtiedPagesOf(a + b) == DirtiedPagesOf(a) + DirtiedPagesOf(b)
    ensures PinnedPagesOf(a + b) == PinnedPagesOf(a) + PinnedPagesOf(b)
  {
    PutsAppend(a, b);
    DirtiesAppend(a, b);
    PinsAppend(a, b);
  }
}
