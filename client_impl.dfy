/**
 * The client facade: the registry of cancel functions of the calls in flight,
 * one unary call wrapper, the streaming bridge that turns a receive stream
 * into an event channel, the upload drain loop, and disposal.
 *
 * Concurrency is modelled sequentially. A goroutine becomes a method that the
 * caller runs at the point the goroutine would run; what the transport does
 * (the stub's reply, the outcome of each `Recv` and `Send`, the moment a
 * context is found cancelled) is given as parameters.
 */
module ClientImpl {
  import opened Common
  import opened ClientApi

  /** A cancel function made by `context.WithCancel`; it names the context it cancels. */
  datatype CancelFunc = CancelFunc(id: nat)

  /** What the client does to the outside world, in order: close the connection, or cancel a context. */
  datatype Effect = ConnClosed | Cancelled(fn: CancelFunc)

  /** What one `Recv` on a receive stream returns. */
  datatype Recv<+T> = Item(item: T) | EOF | RecvErr(err: Error)

  /**
   * When the reader loop finds its context cancelled: never while the stream
   * lasts, or when testing it before the `n`-th `Recv` (counting from 0).
   */
  datatype Cancellation = Never | BeforeRecv(n: nat)

  /** The reader's context is found cancelled when tested before `Recv` number `i`. */
  predicate CancelledAt(c: Cancellation, i: nat)
  {
    c.BeforeRecv? && c.n <= i
  }

  /** No duplicate in the sequence. */
  predicate Distinct(xs: seq<int>)
  {
    forall i, j :: 0 <= i < j < |xs| ==> xs[i] != xs[j]
  }

  /** The cancellations, in order, of the functions registered under the handles in `order`. */
  function CancelsOf(order: seq<int>, m: map<int, CancelFunc>): (effects: seq<Effect>)
    requires forall i :: 0 <= i < |order| ==> order[i] in m
    ensures |effects| == |order|
    ensures forall i :: 0 <= i < |order| ==> effects[i] == Cancelled(m[order[i]])
    ensures ConnClosed !in effects
  {
    seq(|order|, i requires 0 <= i < |order| => Cancelled(m[order[i]]))
  }

  /** Cancelling one more handle appends its cancellation. */
  lemma CancelsOfSnoc(order: seq<int>, h: int, m: map<int, CancelFunc>)
    requires forall i :: 0 <= i < |order| ==> order[i] in m
    requires h in m
    ensures CancelsOf(order + [h], m) == CancelsOf(order, m) + [Cancelled(m[h])]
  {
    var o := order + [h];
    assert forall i :: 0 <= i < |order| ==> o[i] == order[i];
  }

  /** A non-empty set has an element. */
  lemma NonEmptyHasElement(s: set<int>)
    requires s != {}
    ensures exists x :: x in s
  {
    if forall x :: x !in s {
      assert false;
    }
  }

  // ---------------------------------------------------------------------------
  // Event channel
  // ---------------------------------------------------------------------------

  /**
   * The channel a stream's events are delivered on. The consumer is taken to
   * read every event, so `sent` is what the consumer sees, in order. Sending
   * on or closing a closed channel makes Go panic, so both require it open.
   */
  class EventChannel<T> {
    var sent: seq<StreamEvent<T>>
    var closed: bool

    constructor ()
      ensures sent == [] && !closed
    {
      sent, closed := [], false;
    }

    method Send(e: StreamEvent<T>)
      requires !closed
      modifies this
      ensures sent == old(sent) + [e] && !closed
    {
      sent := sent + [e];
    }

    method Close()
      requires !closed
      modifies this
      ensures closed && sent == old(sent)
    {
      closed := true;
    }
  }

  // ---------------------------------------------------------------------------
  // What the stream reader emits
  // ---------------------------------------------------------------------------

  /** The position of the first outcome that ends the stream (EOF or an error), or `|recvs|`. */
  function FirstTerminal<T>(recvs: seq<Recv<T>>): (k: nat)
    ensures k <= |recvs|
    ensures forall j :: 0 <= j < k ==> recvs[j].Item?
    ensures k < |recvs| ==> !recvs[k].Item?
  {
    if recvs == [] || !recvs[0].Item? then 0 else 1 + FirstTerminal(recvs[1..])
  }

  /** The item events for a run of outcomes that are all items. */
  function Entries<T>(recvs: seq<Recv<T>>): (events: seq<StreamEvent<T>>)
    requires forall j :: 0 <= j < |recvs| ==> recvs[j].Item?
    ensures |events| == |recvs|
    ensures forall j :: 0 <= j < |recvs| ==> events[j] == EntryEvent(recvs[j].item)
  {
    seq(|recvs|, j requires 0 <= j < |recvs| => EntryEvent(recvs[j].item))
  }

  /**
   * The events a reader loop emits for the outcomes `recvs` when its context
   * is found cancelled as `c` says: the items received before the stream
   * ends or the context is found cancelled, whichever comes first, followed,
   * when the stream ended with an error, by one event carrying that error.
   */
  function ReaderEvents<T>(recvs: seq<Recv<T>>, c: Cancellation): (events: seq<StreamEvent<T>>)
    ensures |events| <= |recvs|
    ensures |events| <= FirstTerminal(recvs) + 1
  {
    var k := FirstTerminal(recvs);
    if CancelledAt(c, k) then Entries(recvs[..c.n])
    else if k < |recvs| && recvs[k].RecvErr? then Entries(recvs[..k]) + [ErrorEvent(recvs[k].err)]
    else Entries(recvs[..k])
  }

  /** The outcomes `Recv` returns for the items `xs`, in order. */
  function Items<T>(xs: seq<T>): (recvs: seq<Recv<T>>)
    ensures |recvs| == |xs|
    ensures forall j :: 0 <= j < |xs| ==> recvs[j] == Item(xs[j])
  {
    seq(|xs|, j requires 0 <= j < |xs| => Item(xs[j]))
  }

  /**
   * Items then a graceful end, with no cancellation: exactly the items are
   * emitted, in order, and no error event.
   */
  lemma ReaderAtEof<T>(xs: seq<T>)
    ensures ReaderEvents(Items(xs) + [EOF], Never) == Entries(Items(xs))
  {
    var recvs := Items(xs) + [EOF];
    assert recvs[|xs|] == EOF;
    assert FirstTerminal(recvs) == |xs|;
    assert recvs[..|xs|] == Items(xs);
  }

  /**
   * Items then an error, with no cancellation: the items are emitted in
   * order, then one event with that error, and nothing that follows the
   * error in the stream.
   */
  lemma ReaderAtError<T>(xs: seq<T>, e: Error, rest: seq<Recv<T>>)
    ensures ReaderEvents(Items(xs) + [RecvErr(e)] + rest, Never) == Entries(Items(xs)) + [ErrorEvent(e)]
  {
    var recvs := Items(xs) + [RecvErr(e)] + rest;
    assert recvs[|xs|] == RecvErr(e);
    assert FirstTerminal(recvs) == |xs|;
    assert recvs[..|xs|] == Items(xs);
  }

  /** A context cancelled before the first `Recv` emits nothing. */
  lemma ReaderCancelledAtOnce<T>(recvs: seq<Recv<T>>)
    ensures ReaderEvents(recvs, BeforeRecv(0)) == []
  {
  }

  /**
   * In every run, the events are the stream's items in the order received,
   * except that the last event may be an error event, and then it carries
   * the error that ended the stream.
   */
  lemma ReaderEventsInOrder<T>(recvs: seq<Recv<T>>, c: Cancellation)
    ensures var events := ReaderEvents(recvs, c);
            && |events| <= |recvs|
            && (forall j :: 0 <= j < |events| - 1 ==> events[j].EntryEvent?)
            && (forall j :: 0 <= j < |events| && events[j].EntryEvent? ==> recvs[j] == Item(events[j].entry))
            && (forall j :: 0 <= j < |events| && events[j].ErrorEvent? ==>
                  j == |events| - 1 && recvs[j] == RecvErr(events[j].err))
  {
  }

  /**
   * Cancelling earlier can only cut the events short: what a cancelled reader
   * emits is a prefix of what it emits when never cancelled.
   */
  lemma ReaderCancelledIsPrefix<T>(recvs: seq<Recv<T>>, n: nat)
    ensures ReaderEvents(recvs, BeforeRecv(n)) <= ReaderEvents(recvs, Never)
  {
    var k := FirstTerminal(recvs);
    if n <= k {
      var all := ReaderEvents(recvs, Never);
      assert recvs[..k][..n] == recvs[..n];
      assert Entries(recvs[..n]) == all[..n];
    }
  }

  // ---------------------------------------------------------------------------
  // Upload drain loop
  // ---------------------------------------------------------------------------

  /** The position of the first `Send` that fails, or `|sendErrs|` when none does. */
  function FirstSendError(sendErrs: seq<Option<Error>>): (k: nat)
    ensures k <= |sendErrs|
    ensures forall j :: 0 <= j < k ==> sendErrs[j].None?
    ensures k < |sendErrs| ==> sendErrs[k].Some?
  {
    if sendErrs == [] || sendErrs[0].Some? then 0 else 1 + FirstSendError(sendErrs[1..])
  }

  /**
   * The goroutine of `UploadFile`: the contents written to the sink, in
   * order, are forwarded to `Send`; `sendErrs[i]` is what `Send` returns for
   * `contents[i]` and `closeSendErr` what `CloseSend` returns. The first
   * `Send` error is delivered once and the loop returns without calling
   * `CloseSend`; when the sink is exhausted `CloseSend` is called and its
   * error, if any, delivered. At most one error is ever delivered.
   */
  method DrainUpload<C>(contents: seq<C>, sendErrs: seq<Option<Error>>, closeSendErr: Option<Error>)
    returns (sent: seq<C>, closeSendCalled: bool, delivered: seq<Error>)
    requires |sendErrs| == |contents|
    ensures var k := FirstSendError(sendErrs);
            k < |contents| ==>
              sent == contents[..k + 1] && !closeSendCalled && delivered == [sendErrs[k].value]
    ensures FirstSendError(sendErrs) == |contents| ==>
              && sent == contents && closeSendCalled
              && delivered == (if closeSendErr.Some? then [closeSendErr.value] else [])
    ensures |delivered| <= 1
  {
    sent, closeSendCalled, delivered := [], false, [];
    var i := 0;
    while i < |contents|
      invariant i <= |contents|
      invariant sent == contents[..i]
      invariant forall j :: 0 <= j < i ==> sendErrs[j].None?
      invariant delivered == []
    {
      var content := contents[i];
      sent := sent + [content];
      var err := sendErrs[i];
      if err.Some? {
        delivered := delivered + [err.value];
        FirstSendErrorAt(sendErrs, i);
        return;
      }
      i := i + 1;
    }
    assert sent == contents;
    FirstSendErrorNone(sendErrs);
    closeSendCalled := true;
    var err := closeSendErr;
    if err.Some? {
      delivered := delivered + [err.value];
    }
  }

  /** When every `Send` before `i` succeeds and `i` fails, `i` is the first failure. */
  lemma {:induction false} FirstSendErrorAt(sendErrs: seq<Option<Error>>, i: nat)
    requires i < |sendErrs| && sendErrs[i].Some?
    requires forall j :: 0 <= j < i ==> sendErrs[j].None?
    ensures FirstSendError(sendErrs) == i
  {
    if i > 0 {
      assert sendErrs[0].None?;
      assert forall j :: 0 <= j < i - 1 ==> sendErrs[1..][j] == sendErrs[j + 1];
      FirstSendErrorAt(sendErrs[1..], i - 1);
    }
  }

  /** When every `Send` succeeds, there is no first failure. */
  lemma {:induction false} FirstSendErrorNone(sendErrs: seq<Option<Error>>)
    requires forall j :: 0 <= j < |sendErrs| ==> sendErrs[j].None?
    ensures FirstSendError(sendErrs) == |sendErrs|
  {
    if sendErrs != [] {
      assert sendErrs[0].None?;
      assert forall j :: 0 <= j < |sendErrs| - 1 ==> sendErrs[1..][j] == sendErrs[j + 1];
      FirstSendErrorNone(sendErrs[1..]);
    }
  }

  // ---------------------------------------------------------------------------
  // The client
  // ---------------------------------------------------------------------------

  /**
   * `implClient`: the handle counter, the registry of the cancel functions of
   * the calls in flight, and whether disposal has run (`closeOnce`).
   * `effects` records every connection close and every context cancellation
   * the client performs, in order.
   */
  class Client {
    var nextHandle: int
    var cancelFunctions: map<int, CancelFunc>
    var closed: bool
    ghost var effects: seq<Effect>

    /**
     * Every registered handle is one the counter has handed out, and the
     * connection has been closed exactly once if disposal has run, and not
     * at all otherwise.
     */
    ghost predicate Valid()
      reads this
    {
      && nextHandle >= 0
      && (forall h :: h in cancelFunctions ==> 1 <= h <= nextHandle)
      && multiset(effects)[ConnClosed] == (if closed then 1 else 0)
    }

    /** `Create(conn)`: a client over a connection, with no call in flight. */
    constructor Create()
      ensures Valid()
      ensures nextHandle == 0 && cancelFunctions == map[] && !closed && effects == []
    {
      nextHandle, cancelFunctions, closed := 0, map[], false;
      effects := [];
    }

    /**
     * `addCancelFn(fn)`: the counter is incremented first, so the handle is
     * one more than the previous counter (the first is 1) and larger than
     * every handle registered before; `fn` is stored under it and no other
     * entry changes.
     */
    method AddCancelFn(fn: CancelFunc) returns (handle: int)
      requires Valid()
      modifies this`nextHandle, this`cancelFunctions
      ensures Valid()
      ensures handle == old(nextHandle) + 1 && nextHandle == handle
      ensures forall h :: h in old(cancelFunctions) ==> h < handle
      ensures handle !in old(cancelFunctions)
      ensures cancelFunctions == old(cancelFunctions)[handle := fn]
    {
      nextHandle := nextHandle + 1;
      handle := nextHandle;
      cancelFunctions := cancelFunctions[handle := fn];
    }

    /**
     * `removeCancelFn(handle)`: removes that entry only. An absent handle
     * changes nothing, so removing a handle twice is the same as removing
     * it once; it never fails.
     */
    method RemoveCancelFn(handle: int)
      requires Valid()
      modifies this`cancelFunctions
      ensures Valid()
      ensures cancelFunctions == old(cancelFunctions) - {handle}
      ensures handle !in old(cancelFunctions) ==> cancelFunctions == old(cancelFunctions)
    {
      cancelFunctions := cancelFunctions - {handle};
    }

    /** Invoking a context's cancel function. */
    method Cancel(fn: CancelFunc)
      requires Valid()
      modifies this`effects
      ensures Valid()
      ensures effects == old(effects) + [Cancelled(fn)]
    {
      effects := effects + [Cancelled(fn)];
    }

    /**
     * `Get(ctx, in)`, standing for every unary wrapper: the call's cancel
     * function is registered while the stub runs (`registeredDuringCall` is
     * the registry the stub runs under), the stub's reply is returned
     * unchanged, and the deferred cleanup removes the handle and cancels the
     * context on success and on error alike, so the registry ends as it began.
     */
    method Get<R>(cancel: CancelFunc, reply: Outcome<R>)
      returns (r: Outcome<R>, ghost registeredDuringCall: map<int, CancelFunc>)
      requires Valid()
      modifies this`nextHandle, this`cancelFunctions, this`effects
      ensures Valid()
      ensures r == reply
      ensures nextHandle == old(nextHandle) + 1
      ensures registeredDuringCall == old(cancelFunctions)[nextHandle := cancel]
      ensures cancelFunctions == old(cancelFunctions)
      ensures effects == old(effects) + [Cancelled(cancel)]
    {
      var handle := AddCancelFn(cancel);
      registeredDuringCall := cancelFunctions;
      r := reply;
      // deferred
      RemoveCancelFn(handle);
      Cancel(cancel);
    }

    /**
     * The opening half of `Search`, `Scan`, `MapRange` and `DownloadFile`:
     * the sub-context's cancel function is registered and the stream is
     * opened (`openErr` is the stub's error). If opening fails, the handle is
     * removed again, no channel is made and the error is returned; otherwise
     * a new open channel is returned with the handle still registered.
     */
    method OpenStream<T>(cancel: CancelFunc, openErr: Option<Error>)
      returns (handle: int, ch: EventChannel?<T>, err: Option<Error>)
      requires Valid()
      modifies this`nextHandle, this`cancelFunctions
      ensures Valid()
      ensures handle == old(nextHandle) + 1 && nextHandle == handle
      ensures err == openErr
      ensures openErr.Some? ==> ch == null && cancelFunctions == old(cancelFunctions)
      ensures openErr.None? ==>
                && ch != null && fresh(ch) && ch.sent == [] && !ch.closed
                && cancelFunctions == old(cancelFunctions)[handle := cancel]
    {
      handle := AddCancelFn(cancel);
      if openErr.Some? {
        RemoveCancelFn(handle);
        return handle, null, openErr;
      }
      ch := new EventChannel<T>();
      err := None;
    }

    /**
     * The reader goroutine of a stream. Before each `Recv` it checks the
     * context; an item is emitted as an event, a graceful end stops the loop
     * without an event, any other error is emitted once and stops it. On
     * exit, whatever the reason, the handle is removed and the channel closed
     * exactly once.
     */
    method ReadStream<T>(handle: int, ch: EventChannel<T>, recvs: seq<Recv<T>>, c: Cancellation)
      requires Valid()
      requires ch.sent == [] && !ch.closed
      requires |recvs| > 0 && !recvs[|recvs| - 1].Item?
      modifies this`cancelFunctions, ch
      ensures Valid()
      ensures ch.closed && ch.sent == ReaderEvents(recvs, c)
      ensures cancelFunctions == old(cancelFunctions) - {handle}
    {
      var k := FirstTerminal(recvs);
      var i := 0;
      ghost var ended := false;
      while !CancelledAt(c, i)
        invariant i <= k < |recvs|
        invariant forall j :: 0 <= j < i ==> !CancelledAt(c, j)
        invariant ch.sent == Entries(recvs[..i]) && !ch.closed
        invariant Valid() && cancelFunctions == old(cancelFunctions)
        invariant !ended
        decreases k - i
      {
        var r := recvs[i];
        if !r.Item? {
          if r.RecvErr? {
            ch.Send(ErrorEvent(r.err));
          }
          ended := true;
          break;
        }
        ch.Send(EntryEvent(r.item));
        assert recvs[..i + 1] == recvs[..i] + [r];
        i := i + 1;
      }
      if ended {
        assert i == k && !CancelledAt(c, k);
      } else if i > 0 {
        assert !CancelledAt(c, i - 1);
      }
      assert ch.sent == ReaderEvents(recvs, c);
      // deferred
      RemoveCancelFn(handle);
      ch.Close();
    }

    /**
     * The cancel callback a stream call returns: it removes the handle, if
     * still there, and cancels the stream's context.
     */
    method CancelStream(handle: int, cancel: CancelFunc)
      requires Valid()
      modifies this`cancelFunctions, this`effects
      ensures Valid()
      ensures cancelFunctions == old(cancelFunctions) - {handle}
      ensures effects == old(effects) + [Cancelled(cancel)]
    {
      RemoveCancelFn(handle);
      Cancel(cancel);
    }

    /**
     * The opening half of `UploadFile`: the cancel function is registered and
     * the stream opened. If opening fails, the handle is removed and the
     * error is delivered on the error channel, with no sink. Otherwise the
     * sink is opened and the handle stays registered: the upload path never
     * removes it.
     */
    method OpenUpload(cancel: CancelFunc, openErr: Option<Error>)
      returns (handle: int, sinkOpened: bool, delivered: seq<Error>)
      requires Valid()
      modifies this`nextHandle, this`cancelFunctions
      ensures Valid()
      ensures handle == old(nextHandle) + 1 && nextHandle == handle
      ensures sinkOpened <==> openErr.None?
      ensures openErr.Some? ==> delivered == [openErr.value] && cancelFunctions == old(cancelFunctions)
      ensures openErr.None? ==> delivered == [] && cancelFunctions == old(cancelFunctions)[handle := cancel]
    {
      handle := AddCancelFn(cancel);
      if openErr.Some? {
        RemoveCancelFn(handle);
        return handle, false, [openErr.value];
      }
      sinkOpened, delivered := true, [];
    }

    /**
     * `Destroy()`. The first call closes the connection and then invokes
     * every registered cancel function once, in some order (`order` lists
     * the handles in the order visited); the registry itself is left as it
     * is. Later calls do nothing. The result is always nil: the error of
     * closing the connection (`closeErr`) is overwritten.
     */
    method Destroy(closeErr: Option<Error>) returns (err: Option<Error>, ghost order: seq<int>)
      requires Valid()
      modifies this`closed, this`effects
      ensures Valid()
      ensures err == None && closed
      ensures old(closed) ==> effects == old(effects)
      ensures !old(closed) ==>
                && Distinct(order)
                && (forall i :: 0 <= i < |order| ==> order[i] in cancelFunctions)
                && (forall h :: h in cancelFunctions ==> h in order)
                && effects == old(effects) + [ConnClosed] + CancelsOf(order, cancelFunctions)
    {
      order := [];
      if !closed {
        closed := true;
        err := closeErr;
        effects := effects + [ConnClosed];
        var remaining: set<int> := cancelFunctions.Keys;
        while remaining != {}
          invariant closed && Valid()
          invariant forall i :: 0 <= i < |order| ==> order[i] in cancelFunctions && order[i] !in remaining
          invariant forall h :: h in cancelFunctions ==> h in remaining || h in order
          invariant Distinct(order)
          invariant effects == old(effects) + [ConnClosed] + CancelsOf(order, cancelFunctions)
          decreases remaining
        {
          NonEmptyHasElement(remaining);
          var h :| h in remaining;
          ghost var before := old(effects) + [ConnClosed];
          Cancel(cancelFunctions[h]);
          CancelsOfSnoc(order, h, cancelFunctions);
          assert before + CancelsOf(order, cancelFunctions) + [Cancelled(cancelFunctions[h])]
              == before + (CancelsOf(order, cancelFunctions) + [Cancelled(cancelFunctions[h])]);
          order := order + [h];
          remaining := remaining - {h};
        }
      }
      return None, order;
    }
  }
}
